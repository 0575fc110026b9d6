/** Alignment and page arithmetic of the drivers: ALIGN and the buf_page helpers. */
module Pages {

  const BALIGN: nat := 128
  const MAX_BUF_SIZE: nat := 0x7800_0000

  /** PAGE_SIZE is a parameter of the kernel build: a multiple of BALIGN. */
  ghost predicate ValidPage(page: nat) {
    page > 0 && page % BALIGN == 0
  }

  /** ALIGN(x, BALIGN) */
  function Align(x: int): int {
    (x + (BALIGN - 1)) / BALIGN * BALIGN
  }

  function BufPageStart(buf: int, page: nat): int
    requires page > 0
  {
    buf / page * page
  }

  function BufNumPages(buf: int, len: int, page: nat): int
    requires page > 0
  {
    (buf + len - 1) / page - buf / page + 1
  }

  /** PAGE_ALIGN */
  function PageAlign(size: nat, page: nat): nat
    requires page > 0
  {
    (size + (page - 1)) / page * page
  }

  function BufPageSize(size: nat, page: nat): nat
    requires page > 0
  {
    if PageAlign(size, page) > page then PageAlign(size, page) else page
  }

  // ---------------------------------------------------------------------------------------
  // Arithmetic
  // ---------------------------------------------------------------------------------------

  lemma MulMono(a: int, b: int, p: int)
    requires p >= 0 && a <= b
    ensures a * p <= b * p
  {
  }

  lemma MulOrder(a: int, b: int, p: int)
    requires p > 0
    ensures a < b <==> a * p < b * p
  {
    if a < b {
      MulMono(a + 1, b, p);
    } else {
      MulMono(b, a, p);
    }
  }

  lemma DivBounds(x: int, p: int)
    requires p > 0
    ensures x / p * p <= x < x / p * p + p
  {
  }

  lemma Distribute(a: int, b: int, p: int)
    ensures (a + b) * p == a * p + b * p
    ensures (a - b) * p == a * p - b * p
  {
  }

  lemma DivUnique(x: int, d: int, p: int)
    requires p > 0 && d * p <= x < d * p + p
    ensures x / p == d
  {
    DivBounds(x, p);
    Distribute(d, 1, p);
    Distribute(x / p, 1, p);
    MulOrder(d, x / p + 1, p);
    MulOrder(x / p, d + 1, p);
  }

  lemma DivModUnique(x: int, d: int, r: int, p: int)
    requires p > 0 && 0 <= r < p && x == d * p + r
    ensures x / p == d && x % p == r
  {
    DivUnique(x, d, p);
  }

  function Quot(x: nat, p: nat): nat
    requires p > 0
  {
    x / p
  }

  function Rem(x: nat, p: nat): nat
    requires p > 0
  {
    x % p
  }

  lemma QuotOfSmall(x: nat, p: nat)
    requires x < p
    ensures Quot(x, p) == 0 && Rem(x, p) == x
  {
    DivModUnique(x, 0, x, p);
  }

  lemma QuotOfSelf(p: nat)
    requires p > 0
    ensures p % p == 0
  {
    DivModUnique(p, 1, 0, p);
  }

  lemma QuotLessOne(x: nat, p: nat)
    requires 0 < p <= x
    ensures Quot(x, p) == Quot(x - p, p) + 1 && Rem(x, p) == Rem(x - p, p)
  {
    Distribute(Quot(x - p, p), 1, p);
    DivModUnique(x, Quot(x - p, p) + 1, Rem(x - p, p), p);
  }

  lemma RemBelowMultiple(q: nat, p: nat)
    requires q > 0 && p > 0
    ensures q * p >= p && Rem(q * p - 1, p) == p - 1
  {
    MulMono(1, q, p);
    Distribute(q - 1, 1, p);
    DivModUnique(q * p - 1, q - 1, p - 1, p);
  }

  lemma DivShift(x: int, d: int, p: int)
    requires p > 0
    ensures (x + d * p) / p == x / p + d
  {
    DivBounds(x, p);
    Distribute(x / p, d, p);
    DivUnique(x + d * p, x / p + d, p);
  }

  lemma DivMono(x: int, y: int, p: int)
    requires p > 0 && x <= y
    ensures x / p <= y / p
  {
    DivBounds(x, p);
    DivBounds(y, p);
    Distribute(y / p, 1, p);
    MulOrder(x / p, y / p + 1, p);
  }

  /** The multiples of p are the numbers that division by p loses nothing of. */
  lemma Multiple(x: int, p: int)
    requires p > 0
    ensures x % p == 0 <==> x == x / p * p
    ensures x / p * p % p == 0
  {
    DivUnique(x / p * p, x / p, p);
  }

  lemma PageAlignFacts(size: nat, page: nat)
    requires page > 0
    ensures size <= PageAlign(size, page) < size + page
    ensures PageAlign(size, page) % page == 0
  {
    DivBounds(size + (page - 1), page);
    Multiple(size + (page - 1), page);
  }

  /** Any page multiple that holds `size` bytes holds what the page helper says. */
  lemma PageMultipleFits(size: nat, cap: nat, page: nat)
    requires page > 0 && cap % page == 0 && size <= cap
    ensures PageAlign(size, page) <= cap
    ensures size > 0 ==> BufPageSize(size, page) <= cap
  {
    Multiple(cap, page);
    DivMono(size + (page - 1), cap + (page - 1), page);
    DivUnique(cap + (page - 1), cap / page, page);
    MulMono((size + (page - 1)) / page, cap / page, page);
    if size > 0 {
      MulOrder(0, cap / page, page);
      MulMono(1, cap / page, page);
    }
  }

  lemma AlignFacts(x: int)
    ensures x <= Align(x) < x + BALIGN && Align(x) % BALIGN == 0
    ensures x % BALIGN == 0 ==> Align(x) == x
  {
  }

  lemma AlignShift(b: int, x: int)
    requires b % BALIGN == 0
    ensures Align(b + x) == b + Align(x)
  {
  }

  lemma AlignMono(x: int, y: int)
    requires x <= y
    ensures Align(x) <= Align(y)
  {
  }

  /** A multiple of the page size is a multiple of BALIGN. */
  lemma PageMultipleAligns(x: int, page: nat)
    requires ValidPage(page) && x % page == 0
    ensures x % BALIGN == 0
  {
    Multiple(x, page);
    Multiple(page, BALIGN);
    var n := page / BALIGN;
    assert x == x / page * n * BALIGN;
    DivUnique(x, x / page * n, BALIGN);
  }

  /** Rounding up to BALIGN stays within the whole pages of a buffer. */
  lemma AlignWithinPages(size: nat, page: nat)
    requires ValidPage(page)
    ensures Align(size) <= BufPageSize(size, page)
  {
    PageAlignFacts(size, page);
    PageMultipleAligns(PageAlign(size, page), page);
    AlignMono(size, PageAlign(size, page));
    AlignFacts(PageAlign(size, page));
  }

  // ---------------------------------------------------------------------------------------
  // Page descriptors
  // ---------------------------------------------------------------------------------------

  /** The page-aligned range [start, start + n * page) contains [a, a + len). */
  ghost predicate Covers(start: int, n: int, a: int, len: int, page: nat)
    requires page > 0
  {
    start % page == 0 && start <= a && a + len <= start + n * page
  }

  ghost predicate IsLeastCover(start: int, n: int, a: int, len: int, page: nat)
    requires page > 0
  {
    Covers(start, n, a, len, page) && forall s, m :: Covers(s, m, a, len, page) ==> n <= m
  }

  lemma PageCover(a: int, len: int, page: nat)
    requires page > 0 && len > 0
    ensures Covers(BufPageStart(a, page), BufNumPages(a, len, page), a, len, page)
  {
    Multiple(a, page);
    DivBounds(a, page);
    DivBounds(a + len - 1, page);
    Distribute((a + len - 1) / page + 1, a / page, page);
    Distribute((a + len - 1) / page, 1, page);
  }

  lemma PageCoverIsLeast(a: int, len: int, page: nat, start: int, n: int)
    requires page > 0 && len > 0 && Covers(start, n, a, len, page)
    ensures BufNumPages(a, len, page) <= n
  {
    var s, z := start / page, a + len - 1;
    Multiple(start, page);
    DivMono(start, a, page);
    DivBounds(z, page);
    Distribute(s, n, page);
    MulOrder(z / page, s + n, page);
  }

  /**
    The descriptor of an argument at kernel address `pv` covers its device range with the least
    number of whole pages, although the driver counts the pages of the kernel address.
   */
  lemma DescriptorIsLeastCover(page: nat, va: int, da: int, pv: int, len: int)
    requires page > 0 && va % page == 0 && da % page == 0 && len > 0
    ensures var a := da + (pv - va); IsLeastCover(BufPageStart(a, page), BufNumPages(pv, len, page), a, len, page)
  {
    var a, d := da + (pv - va), da / page - va / page;
    Multiple(va, page);
    Multiple(da, page);
    Distribute(da / page, va / page, page);
    assert a == pv + d * page;
    DivShift(pv, d, page);
    DivShift(pv + len - 1, d, page);
    assert BufNumPages(pv, len, page) == BufNumPages(a, len, page);
    PageCover(a, len, page);
    forall start, n | Covers(start, n, a, len, page) ensures BufNumPages(pv, len, page) <= n {
      PageCoverIsLeast(a, len, page, start, n);
    }
  }
}

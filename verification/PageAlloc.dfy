/**
  vfastrpc_alloc_pages: a page table filled with blocks of 2^order pages, largest first, giving up
  an order for good when a request for it fails.
 */
module PageAllocation {
  import opened Common
  import opened Counting
  import opened Pages

  /** One call of alloc_pages_node and whether it was served. */
  datatype Request = Request(order: nat, ok: bool)

  // ---------------------------------------------------------------------------------------
  // Bits
  // ---------------------------------------------------------------------------------------

  function Pow2(k: nat): (p: nat)
    ensures p > 0
  {
    if k == 0 then 1 else 2 * Pow2(k - 1)
  }

  /** __fls: the index of the highest set bit. */
  function Fls(n: nat): nat
    requires n > 0
  {
    if n == 1 then 0 else 1 + Fls(n / 2)
  }

  function PopCount(n: nat): nat {
    if n == 0 then 0 else n % 2 + PopCount(n / 2)
  }

  lemma {:induction false} FlsBounds(n: nat)
    requires n > 0
    ensures Pow2(Fls(n)) <= n < Pow2(Fls(n) + 1)
  {
    if n > 1 {
      FlsBounds(n / 2);
    }
  }

  lemma {:induction false} Pow2Mono(j: nat, k: nat)
    requires j <= k
    ensures Pow2(j) <= Pow2(k)
    ensures j < k ==> 2 * Pow2(j) <= Pow2(k)
  {
    if j < k {
      Pow2Mono(j, k - 1);
    }
  }

  lemma FlsUnique(n: nat, k: nat)
    requires n > 0 && Pow2(k) <= n < Pow2(k + 1)
    ensures Fls(n) == k
  {
    FlsBounds(n);
    if Fls(n) < k {
      Pow2Mono(Fls(n) + 1, k);
    } else if k < Fls(n) {
      Pow2Mono(k + 1, Fls(n));
    }
  }

  lemma {:induction false} Pow2Quotient(m: nat, k: nat) returns (q: nat)
    requires m <= k
    ensures q > 0 && q * Pow2(m) == Pow2(k)
    decreases k
  {
    if m == k {
      q := 1;
    } else {
      var p := Pow2Quotient(m, k - 1);
      q := 2 * p;
    }
  }

  /** Masking 2^k - 1 with 2^m - 1 leaves the shorter of the two. */
  lemma MaskMeets(k: nat, m: nat)
    ensures Rem(Pow2(k) - 1, Pow2(m)) == Pow2(if k < m then k else m) - 1
  {
    if k <= m {
      Pow2Mono(k, m);
      QuotOfSmall(Pow2(k) - 1, Pow2(m));
    } else {
      var q := Pow2Quotient(m, k);
      RemBelowMultiple(q, Pow2(m));
    }
  }

  lemma MaskIsEmpty(k: nat)
    ensures Pow2(k) == 1 <==> k == 0
  {
    if k > 0 {
      Pow2Mono(1, k);
    }
  }

  lemma MaskFls(k: nat)
    requires k > 0
    ensures Pow2(k) - 1 > 0 && Fls(Pow2(k) - 1) == k - 1
  {
    FlsUnique(Pow2(k) - 1, k - 1);
  }

  lemma {:induction false} PopCountTopBit(n: nat)
    requires n > 0
    ensures n >= Pow2(Fls(n))
    ensures PopCount(n) == 1 + PopCount(n - Pow2(Fls(n)))
  {
    if n > 1 {
      PopCountTopBit(n / 2);
      var r := n - Pow2(Fls(n));
      assert Pow2(Fls(n)) == 2 * Pow2(Fls(n / 2));
      assert r / 2 == n / 2 - Pow2(Fls(n / 2)) && r % 2 == n % 2;
    }
  }

  // ---------------------------------------------------------------------------------------
  // How many blocks
  // ---------------------------------------------------------------------------------------

  /** The order of the largest block that is allowed and not larger than what is missing. */
  function TopOrder(count: nat, maxOrder: nat): nat
    requires count > 0
  {
    if Fls(count) < maxOrder then Fls(count) else maxOrder
  }

  lemma TopOrderFits(count: nat, maxOrder: nat)
    requires count > 0
    ensures Pow2(TopOrder(count, maxOrder)) <= count
  {
    FlsBounds(count);
    Pow2Mono(TopOrder(count, maxOrder), Fls(count));
  }

  /** Whole blocks of the largest order, then one block for each bit of the rest. */
  function BlockCount(count: nat, maxOrder: nat): nat {
    Quot(count, Pow2(maxOrder)) + PopCount(Rem(count, Pow2(maxOrder)))
  }

  /** Taking the top block leaves one block fewer to take. */
  lemma BlockCountStep(count: nat, maxOrder: nat)
    requires count > 0
    ensures Pow2(TopOrder(count, maxOrder)) <= count
    ensures BlockCount(count, maxOrder) == 1 + BlockCount(count - Pow2(TopOrder(count, maxOrder)), maxOrder)
  {
    var p := Pow2(maxOrder);
    TopOrderFits(count, maxOrder);
    FlsBounds(count);
    if Fls(count) < maxOrder {
      Pow2Mono(Fls(count) + 1, maxOrder);
      PopCountTopBit(count);
      QuotOfSmall(count, p);
      QuotOfSmall(count - Pow2(Fls(count)), p);
    } else {
      QuotLessOne(count, p);
    }
  }

  /** One order less and half the pages: only a last odd page is a block of its own. */
  lemma BlockCountHalves(n: nat, m: nat)
    requires m > 0
    ensures BlockCount(n, m) == n % 2 + BlockCount(n / 2, m - 1)
  {
    var p := Pow2(m - 1);
    var q, r := Quot(n / 2, p), Rem(n / 2, p);
    assert n == q * Pow2(m) + (2 * r + n % 2) by {
      assert n / 2 == q * p + r;
      assert q * Pow2(m) == 2 * (q * p);
    }
    DivModUnique(n, q, 2 * r + n % 2, Pow2(m));
    assert (2 * r + n % 2) / 2 == r && (2 * r + n % 2) % 2 == n % 2;
  }

  /** The same count, order by order. */
  function Blocks(n: nat, m: nat): nat
    decreases m
  {
    if m == 0 then n else n % 2 + Blocks(n / 2, m - 1)
  }

  lemma {:induction false} BlockCountIsBlocks(n: nat, m: nat)
    ensures BlockCount(n, m) == Blocks(n, m)
    decreases m
  {
    if m == 0 {
      DivModUnique(n, n, 0, 1);
    } else {
      BlockCountHalves(n, m);
      BlockCountIsBlocks(n / 2, m - 1);
    }
  }

  /** A block more never needs more than one block more. */
  lemma {:induction false} BlocksAdd(n: nat, k: nat, m: nat)
    requires k <= m
    ensures Blocks(n + Pow2(k), m) <= Blocks(n, m) + 1
    decreases m
  {
    if m > 0 && k > 0 {
      assert (n + Pow2(k)) / 2 == n / 2 + Pow2(k - 1) && (n + Pow2(k)) % 2 == n % 2;
      BlocksAdd(n / 2, k - 1, m - 1);
    } else if m > 0 && n % 2 == 1 {
      assert (n + 1) / 2 == n / 2 + Pow2(0);
      BlocksAdd(n / 2, 0, m - 1);
    }
  }

  /** The pages of blocks of the given orders. */
  function PagesOf(orders: seq<nat>): nat {
    if orders == [] then 0 else PagesOf(orders[..|orders| - 1]) + Pow2(orders[|orders| - 1])
  }

  /** No way to put `count` pages together from allowed blocks takes fewer of them. */
  lemma {:induction false} BlockCountIsLeast(orders: seq<nat>, maxOrder: nat)
    requires forall i :: 0 <= i < |orders| ==> orders[i] <= maxOrder
    ensures BlockCount(PagesOf(orders), maxOrder) <= |orders|
  {
    BlockCountIsBlocks(PagesOf(orders), maxOrder);
    if orders == [] {
      QuotOfSmall(0, Pow2(maxOrder));
    } else {
      var front := orders[..|orders| - 1];
      BlockCountIsLeast(front, maxOrder);
      BlockCountIsBlocks(PagesOf(front), maxOrder);
      BlocksAdd(PagesOf(front), orders[|orders| - 1], maxOrder);
    }
  }

  lemma FlsMono(a: nat, b: nat)
    requires 0 < a <= b
    ensures Fls(a) <= Fls(b)
  {
    FlsBounds(a);
    FlsBounds(b);
    if Fls(b) < Fls(a) {
      Pow2Mono(Fls(b) + 1, Fls(a));
    }
  }

  // ---------------------------------------------------------------------------------------
  // The page source
  // ---------------------------------------------------------------------------------------

  /** The pages of the block at `base`, in order. */
  function Block(base: nat, n: nat): (s: seq<nat>)
    ensures |s| == n
    ensures forall k :: 0 <= k < n ==> s[k] == base + k
  {
    seq(n, k requires 0 <= k < n => base + k)
  }

  function Members(s: seq<nat>): set<nat> {
    set x | x in s
  }

  function Failures(log: seq<Request>): nat {
    if log == [] then 0 else Failures(log[..|log| - 1]) + if log[|log| - 1].ok then 0 else 1
  }

  /**
    The kernel's page allocator: the pages handed out, and the requests made.  Which requests are
    served is decided by `grants`; callers below know only the contracts.
   */
  class PageSource {
    const grants: nat -> bool
    var held: set<nat>
    var nextPage: nat
    var log: seq<Request>

    constructor (grants: nat -> bool)
      ensures held == {} && log == [] && Valid()
    {
      this.grants, held, nextPage, log := grants, {}, 0, [];
    }

    ghost predicate Valid()
      reads this
    {
      forall x <- held :: x < nextPage
    }

    method AllocPages(order: nat) returns (base: Option<nat>)
      requires Valid()
      modifies this
      ensures Valid()
      ensures log == old(log) + [Request(order, base.Some?)]
      ensures base.None? ==> held == old(held)
      ensures base.Some? ==>
        && held == old(held) + Members(Block(base.value, Pow2(order)))
        && old(held) !! Members(Block(base.value, Pow2(order)))
    {
      var ok := grants(|log|);
      log := log + [Request(order, ok)];
      base := None;
      if ok {
        base := Some(nextPage);
        held := held + Members(Block(nextPage, Pow2(order)));
        nextPage := nextPage + Pow2(order);
      }
    }

    /** vfastrpc_free_pages */
    method FreePages(pages: array<nat>, count: nat)
      requires Valid() && count <= pages.Length
      modifies this
      ensures Valid() && log == old(log) && held == old(held) - Members(pages[..count])
    {
      var n: nat := count;
      while n > 0
        invariant n <= count && Valid() && log == old(log)
        invariant held == old(held) - Members(pages[n..count])
      {
        n := n - 1;
        held := held - {pages[n]};
        assert pages[n..count] == [pages[n]] + pages[n + 1..count];
      }
    }
  }

  method PutBlock(pages: array<nat>, i: nat, base: nat, n: nat)
    requires i + n <= pages.Length
    modifies pages
    ensures pages[..i + n] == old(pages[..i]) + Block(base, n)
  {
    var k := 0;
    while k < n
      invariant k <= n && pages[..i + k] == old(pages[..i]) + Block(base, k)
    {
      pages[i + k] := base + k;
      k := k + 1;
      assert pages[..i + k] == pages[..i + k - 1] + [base + k - 1];
      assert Block(base, k) == Block(base, k - 1) + [base + k - 1];
    }
  }

  lemma JoinDistinct(a: seq<nat>, b: seq<nat>)
    requires Distinct(a) && Distinct(b) && Members(a) !! Members(b)
    ensures Distinct(a + b) && Members(a + b) == Members(a) + Members(b)
  {
    forall i, j | 0 <= i < j < |a + b| ensures (a + b)[i] != (a + b)[j] {
      if i < |a| <= j {
        assert a[i] in Members(a) && b[j - |a|] in Members(b);
      }
    }
  }

  /** The mask of the orders still in use; `k` of them are. */
  ghost predicate IsMask(mask: nat, k: nat) {
    mask == Pow2(k) - 1
  }

  /**
    The requests made since log0: one for each order from k0 - 1 down to k, all failed, and a served one
    for k - 1.
   */
  ghost predicate Tried(log0: seq<Request>, log: seq<Request>, k0: nat, k: nat, served: bool) {
    && k <= k0 && |log| == |log0| + (k0 - k) + (if served then 1 else 0) && log[..|log0|] == log0
    && (forall i :: |log0| <= i < |log0| + (k0 - k) ==> log[i] == Request(k0 - 1 - (i - |log0|), false))
    && (served ==> k > 0 && log[|log| - 1] == Request(k - 1, true))
  }

  /** Request j asks for no more than request i in front of it, and for less if that failed. */
  predicate Follows(log: seq<Request>, i: nat, j: nat)
    requires i < j < |log|
  {
    log[j].order <= log[i].order && (!log[i].ok ==> log[j].order < log[i].order)
  }

  /** No order below k has failed in request i. */
  predicate NotBelow(log: seq<Request>, i: nat, k: nat)
    requires i < |log|
  {
    log[i].order + (if log[i].ok then 1 else 0) >= k
  }

  /**
    The requests made since log0 never ask for more than one before them, and for less than one that
    failed; orders below k have not failed yet.
   */
  ghost predicate Descends(log0: seq<Request>, log: seq<Request>, k: nat) {
    && |log| >= |log0| && log[..|log0|] == log0
    && (forall i :: |log0| <= i < |log| ==> NotBelow(log, i, k))
    && (forall i, j :: |log0| <= i < j < |log| ==> Follows(log, i, j))
  }

  lemma TriedDescends(log0: seq<Request>, was: seq<Request>, log: seq<Request>, k0: nat, k1: nat, k: nat, served: bool)
    requires Descends(log0, was, k0) && k1 <= k0 && Tried(was, log, k1, k, served)
    ensures Descends(log0, log, k)
  {
    assert log[..|log0|] == was[..|log0|];
    assert forall i :: 0 <= i < |was| ==> log[i] == log[..|was|][i];
    forall i | |log0| <= i < |log| ensures NotBelow(log, i, k) {
      assert i < |was| ==> NotBelow(was, i, k0);
    }
    forall i, j | |log0| <= i < j < |log| ensures Follows(log, i, j) {
      if j < |was| {
        assert Follows(was, i, j);
      } else if i < |was| {
        assert NotBelow(was, i, k0);
      }
    }
  }

  lemma DescendsToEnd(log0: seq<Request>, log: seq<Request>, k: nat)
    requires Descends(log0, log, k)
    ensures Descends(log0, log, 0)
  {
  }

  /**
    The inner loop: try the orders in `mask` from the highest down, dropping each that fails.
    A page is missing afterwards only if a request for a single page failed.
   */
  method TakeBlock(src: PageSource, mask0: nat, ghost k0: nat) returns (mask: nat, ghost k: nat, order: nat,
      base: Option<nat>)
    requires src.Valid() && IsMask(mask0, k0) && k0 > 0
    modifies src
    ensures src.Valid() && IsMask(mask, k) && k <= k0
    ensures |src.log| > |old(src.log)| && src.log[..|old(src.log)|] == old(src.log)
    ensures Tried(old(src.log), src.log, k0, k, base.Some?)
    ensures Failures(src.log) + k == Failures(old(src.log)) + k0
    ensures base.Some? ==> k > 0 && order == k - 1
    ensures base.Some? ==> src.held == old(src.held) + Members(Block(base.value, Pow2(order)))
    ensures base.Some? ==> old(src.held) !! Members(Block(base.value, Pow2(order)))
    ensures base.Some? && k == k0 ==> |src.log| == |old(src.log)| + 1
    ensures base.None? ==> k == 0 && src.held == old(src.held) && src.log[|src.log| - 1] == Request(0, false)
  {
    mask, k, base, order := mask0, k0, None, 0;
    while mask != 0
      invariant src.Valid() && IsMask(mask, k) && k <= k0 && src.held == old(src.held) && base.None?
      invariant |src.log| >= |old(src.log)| && src.log[..|old(src.log)|] == old(src.log)
      invariant Failures(src.log) + k == Failures(old(src.log)) + k0
      invariant Tried(old(src.log), src.log, k0, k, false)
      invariant k == k0 ==> src.log == old(src.log)
      invariant k < k0 ==> |src.log| > |old(src.log)| && src.log[|src.log| - 1] == Request(k, false)
      decreases k
    {
      MaskFls(k);
      order := Fls(mask);
      ghost var was := src.log;
      base := src.AllocPages(order);
      assert src.log[..|was|] == was;
      if base.Some? {
        return;
      }
      mask := mask - Pow2(order);
      k := k - 1;
    }
    MaskIsEmpty(k);
  }

  /** The next block: the orders of the missing count that are still in use, tried from the highest down. */
  method TakeNext(src: PageSource, count: nat, mask0: nat, ghost k0: nat, ghost log0: seq<Request>,
                  ghost count0: nat, ghost maxOrder: nat)
    returns (mask: nat, ghost k: nat, size: nat, base: Option<nat>)
    requires src.Valid() && count > 0 && IsMask(mask0, k0) && k0 > 0
    requires Counted(log0, src.log, k0, count0, count, maxOrder) && Descends(log0, src.log, k0)
    modifies src
    ensures src.Valid() && IsMask(mask, k) && Descends(log0, src.log, k)
    ensures base.Some? ==> k > 0 && size == Pow2(k - 1) <= count
    ensures base.Some? ==> src.held == old(src.held) + Members(Block(base.value, size))
    ensures base.Some? ==> old(src.held) !! Members(Block(base.value, size))
    ensures base.Some? ==> Counted(log0, src.log, k, count0, count - size, maxOrder)
    ensures base.None? ==> src.held == old(src.held) && Extends(log0, src.log) && |src.log| > |log0|
    ensures base.None? ==> src.log[|src.log| - 1] == Request(0, false)
    ensures base.None? ==> Failures(log0) < Failures(src.log) <= Failures(log0) + maxOrder + 1
  {
    MaskMeets(k0, Fls(count) + 1);
    ghost var k1 := if k0 < Fls(count) + 1 then k0 else Fls(count) + 1;
    ghost var was := src.log;
    var order;
    mask, k, order, base := TakeBlock(src, Rem(mask0, Pow2(Fls(count) + 1)), k1);
    TakeCounted(log0, was, src.log, k0, k, k1, count0, count, maxOrder);
    TriedDescends(log0, was, src.log, k0, k1, k, base.Some?);
    size := Pow2(order);
    if base.Some? {
      OrderFits(count, k1, order);
      BlockCounted(log0, was, src.log, k, count0, count, maxOrder);
    }
  }

  /** One iteration of the outer loop: a block is added to the table, or everything is given back. */
  method AddBlock(src: PageSource, pages: array<nat>, i: nat, count: nat, mask0: nat, ghost k0: nat,
                  ghost log0: seq<Request>, ghost held0: set<nat>, ghost count0: nat, ghost maxOrder: nat)
    returns (ok: bool, size: nat, mask: nat, ghost k: nat)
    requires src.Valid() && count > 0 && i + count <= pages.Length && IsMask(mask0, k0) && k0 > 0
    requires Took(held0, src.held, pages[..i]) && Counted(log0, src.log, k0, count0, count, maxOrder)
    requires Descends(log0, src.log, k0)
    modifies src, pages
    ensures src.Valid() && IsMask(mask, k) && Descends(log0, src.log, k)
    ensures ok ==> 0 < size <= count && k > 0 && Took(held0, src.held, pages[..i + size])
    ensures ok ==> Counted(log0, src.log, k, count0, count - size, maxOrder)
    ensures !ok ==> src.held == held0 && Extends(log0, src.log)
    ensures !ok ==> |src.log| > |log0| && src.log[|src.log| - 1] == Request(0, false)
    ensures !ok ==> Failures(log0) < Failures(src.log) <= Failures(log0) + maxOrder + 1
  {
    ghost var taken := pages[..i];
    var base;
    mask, k, size, base := TakeNext(src, count, mask0, k0, log0, count0, maxOrder);
    ok := base.Some?;
    if ok {
      JoinTook(held0, held0 + Members(taken), taken, Block(base.value, size));
      PutBlock(pages, i, base.value, size);
    } else {
      src.FreePages(pages, i);
    }
  }

  /**
    vfastrpc_alloc_pages.  Ends for every pattern of failures, with `count` distinct new pages or
    with none kept, and never asks again for an order that has failed; without failures it takes the
    blocks of the count's binary form.
   */
  method AllocTable(src: PageSource, count0: nat, maxOrder: nat, tableOk: bool) returns (r: Option<array<nat>>)
    requires src.Valid()
    modifies src
    ensures src.Valid() && Descends(old(src.log), src.log, 0)
    ensures r.Some? ==> fresh(r.value) && r.value.Length == count0 && Distinct(r.value[..])
    ensures r.Some? ==> src.held == old(src.held) + Members(r.value[..]) && old(src.held) !! Members(r.value[..])
    ensures r.None? ==> src.held == old(src.held)
    ensures r.None? && tableOk ==> |src.log| > |old(src.log)| && src.log[|src.log| - 1] == Request(0, false)
    ensures Failures(src.log) <= Failures(old(src.log)) + maxOrder + 1
    ensures tableOk && Failures(src.log) == Failures(old(src.log)) ==>
      r.Some? && |src.log| == |old(src.log)| + BlockCount(count0, maxOrder)
  {
    if !tableOk {
      return None;
    }
    var pages := new nat[count0](_ => 0);
    var count: nat, i: nat := count0, 0;
    var mask: nat := Pow2(maxOrder + 1) - 1;
    ghost var k: nat := maxOrder + 1;
    ghost var log0, held0 := src.log, src.held;
    StartCounted(log0, count, maxOrder);
    while count > 0
      invariant src.Valid() && count + i == count0 && IsMask(mask, k) && k > 0
      invariant Took(held0, src.held, pages[..i])
      invariant Counted(log0, src.log, k, count0, count, maxOrder) && Descends(log0, src.log, k)
    {
      var ok, size;
      ok, size, mask, k := AddBlock(src, pages, i, count, mask, k, log0, held0, count0, maxOrder);
      if !ok {
        DescendsToEnd(log0, src.log, k);
        return None;
      }
      count := count - size;
      i := i + size;
    }
    assert pages[..] == pages[..i];
    DescendsToEnd(log0, src.log, k);
    r := Some(pages);
  }

  /** The pages taken so far, on top of what was held before. */
  ghost predicate Took(held0: set<nat>, held: set<nat>, taken: seq<nat>) {
    Distinct(taken) && held == held0 + Members(taken) && held0 !! Members(taken)
  }

  lemma JoinTook(held0: set<nat>, held: set<nat>, taken: seq<nat>, block: seq<nat>)
    requires Took(held0, held, taken) && Distinct(block) && held !! Members(block)
    ensures Took(held0, held + Members(block), taken + block)
  {
    JoinDistinct(taken, block);
  }

  ghost predicate Extends(log0: seq<Request>, log: seq<Request>) {
    |log| >= |log0| && log[..|log0|] == log0 && Failures(log) >= Failures(log0)
  }

  /** Each failure has cost an order; without failures the blocks are those of the binary form. */
  ghost predicate Counted(log0: seq<Request>, log: seq<Request>, k: nat, count0: nat, count: nat, maxOrder: nat) {
    && Extends(log0, log)
    && Failures(log) + k <= Failures(log0) + maxOrder + 1
    && (Failures(log) == Failures(log0) && count > 0 ==> k > TopOrder(count, maxOrder))
    && (Failures(log) == Failures(log0) ==>
          |log| + BlockCount(count, maxOrder) == |log0| + BlockCount(count0, maxOrder))
  }

  lemma StartCounted(log0: seq<Request>, count: nat, maxOrder: nat)
    ensures Counted(log0, log0, maxOrder + 1, count, count, maxOrder)
  {
  }

  /** After the inner loop: a failure in it is one more failure, and without one the top order was served. */
  lemma TakeCounted(log0: seq<Request>, was: seq<Request>, log: seq<Request>, k0: nat, k: nat, k1: nat, count0: nat,
      count: nat, maxOrder: nat)
    requires count > 0 && |log| > |was| && log[..|was|] == was && Failures(log) + k == Failures(was) + k1 && k <= k1
    requires Counted(log0, was, k0, count0, count, maxOrder)
        && k1 == (if k0 < Fls(count) + 1 then k0 else Fls(count) + 1)
    ensures Extends(log0, log) && Failures(log) + k <= Failures(log0) + maxOrder + 1
    ensures Failures(log) == Failures(log0) ==> Failures(was) == Failures(log0)
    ensures Failures(log) == Failures(log0) ==> k == k1 == TopOrder(count, maxOrder) + 1
  {
    assert log[..|log0|] == was[..|log0|];
  }

  lemma BlockCounted(log0: seq<Request>, was: seq<Request>, log: seq<Request>, k: nat, count0: nat, count: nat,
      maxOrder: nat)
    requires count > 0 && k > 0 && Pow2(k - 1) <= count
    requires Extends(log0, log) && Failures(log) + k <= Failures(log0) + maxOrder + 1
    requires Failures(log) == Failures(log0) ==> k == TopOrder(count, maxOrder) + 1 && |log| == |was| + 1
    requires Failures(log) == Failures(log0) ==>
      |was| + BlockCount(count, maxOrder) == |log0| + BlockCount(count0, maxOrder)
    ensures Counted(log0, log, k, count0, count - Pow2(k - 1), maxOrder)
  {
    BlockCountStep(count, maxOrder);
    var rest := count - Pow2(k - 1);
    if rest > 0 {
      FlsMono(rest, count);
    }
  }

  lemma OrderFits(count: nat, k: nat, order: nat)
    requires count > 0 && order < k <= Fls(count) + 1
    ensures Pow2(order) <= count
  {
    FlsBounds(count);
    Pow2Mono(order, Fls(count));
  }
}

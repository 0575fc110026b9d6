/**
  Driver buffers: the persistent headers, the best-fit cache and the release of the buffers of a
  context (hfastrpc_buf_alloc, hfastrpc_buf_free and the end of context_free).
 */
module BufferCache {
  import opened Common
  import opened Counting
  import opened Pages

  const MAX_CACHE_BUF_SIZE: nat := 8 * 1024 * 1024
  const MAX_CACHED_BUFS: nat := 32

  datatype Kind = MetaData | CopyData | UserHeap

  /** A buffer: its address as a number, its size, and its index if it is a persistent header. */
  datatype Buf = Buf(id: nat, size: nat, hdr: Option<nat>)

  /**
    The cache (head first) with its counter, the in-use flags of the persistent headers, the buffers
    handed out with what they were asked for, and the addresses of those released.
   */
  datatype Pool = Pool(cached: seq<Buf>, num: int, hdrs: seq<bool>, next: nat, live: map<Buf, Kind>, gone: seq<nat>)

  // ---------------------------------------------------------------------------------------
  // Best fit
  // ---------------------------------------------------------------------------------------

  /** `i` is the first smallest of the buffers that fit among the first n. */
  ghost predicate IsBest(cached: seq<Buf>, size: nat, n: nat, i: nat)
    requires n <= |cached|
  {
    && i < n && cached[i].size >= size
    && (forall j :: 0 <= j < n && cached[j].size >= size ==> cached[i].size <= cached[j].size)
    && (forall j :: 0 <= j < i && cached[j].size >= size ==> cached[i].size < cached[j].size)
  }

  function BestFit(cached: seq<Buf>, size: nat, n: nat): Option<nat>
    requires n <= |cached|
  {
    if n == 0 then None
    else
      var best := BestFit(cached, size, n - 1);
      if cached[n - 1].size >= size
         && (best.None? || (best.value < n - 1 && cached[best.value].size > cached[n - 1].size))
      then Some(n - 1) else best
  }

  /** A hit is a smallest buffer that fits; a miss means that none fits. */
  lemma {:induction false} BestFitIsBest(cached: seq<Buf>, size: nat, n: nat)
    requires n <= |cached|
    ensures match BestFit(cached, size, n)
      case Some(i) => IsBest(cached, size, n, i)
      case None => forall j :: 0 <= j < n ==> cached[j].size < size
  {
    if n > 0 {
      BestFitIsBest(cached, size, n - 1);
    }
  }

  /** The scan of hfastrpc_get_cached_buf. */
  method ScanCache(cached: seq<Buf>, size: nat) returns (fr: Option<nat>)
    ensures fr == BestFit(cached, size, |cached|)
  {
    fr := None;
    var i := 0;
    while i < |cached|
      invariant i <= |cached| && fr == BestFit(cached, size, i) && (fr.Some? ==> fr.value < i)
    {
      if cached[i].size >= size && (fr.None? || cached[fr.value].size > cached[i].size) {
        fr := Some(i);
      }
      i := i + 1;
    }
  }

  function FirstUnused(hdrs: seq<bool>, from: nat): (i: nat)
    requires from <= |hdrs|
    ensures from <= i <= |hdrs|
    ensures i < |hdrs| ==> !hdrs[i]
    ensures forall j :: from <= j < i ==> hdrs[j]
    decreases |hdrs| - from
  {
    if from == |hdrs| || !hdrs[from] then from else FirstUnused(hdrs, from + 1)
  }

  method ScanHeaders(hdrs: array<bool>) returns (i: nat)
    modifies hdrs
    ensures i == FirstUnused(old(hdrs[..]), 0)
    ensures hdrs[..] == if i < hdrs.Length then old(hdrs[..])[i := true] else old(hdrs[..])
  {
    i := 0;
    while i < hdrs.Length
      invariant i <= hdrs.Length && hdrs[..] == old(hdrs[..])
      invariant FirstUnused(hdrs[..], i) == FirstUnused(hdrs[..], 0)
    {
      if !hdrs[i] {
        hdrs[i] := true;
        break;
      }
      i := i + 1;
    }
  }

  // ---------------------------------------------------------------------------------------
  // Allocation and release
  // ---------------------------------------------------------------------------------------

  /** The buffer object of persistent header i; headers take the addresses below the header count. */
  function Header(i: nat, page: nat): Buf {
    Buf(i, page, Some(i))
  }

  /** hfastrpc_get_persistent_buf: the first unused header, for metadata of at most a page. */
  function TakeHeader(p: Pool, size: nat, kind: Kind, page: nat): (Option<Buf>, Pool) {
    var h := FirstUnused(p.hdrs, 0);
    if kind == MetaData && size <= page && h < |p.hdrs| then
      (Some(Header(h, page)), p.(hdrs := p.hdrs[h := true], live := p.live[Header(h, page) := kind]))
    else (None, p)
  }

  /** hfastrpc_get_cached_buf: the best fit of the cache. */
  function TakeCached(p: Pool, size: nat, kind: Kind): (Option<Buf>, Pool) {
    var f: Option<nat> := if kind == UserHeap then None else BestFit(p.cached, size, |p.cached|);
    if f.Some? && f.value < |p.cached| then
      var b := p.cached[f.value];
      (Some(b), p.(cached := RemoveAt(p.cached, f.value), num := p.num - 1, live := p.live[b := kind]))
    else (None, p)
  }

  /** New pages; `backed` says that they and a device mapping are to be had. */
  function MakeNew(p: Pool, size: nat, kind: Kind, page: nat, backed: bool): (Option<Buf>, Pool)
    requires page > 0
  {
    var b := Buf(p.next, if kind == UserHeap then size else PageAlign(size, page), None);
    if backed then (Some(b), p.(next := p.next + 1, live := p.live[b := kind]))
    else (None, p.(next := p.next + 1, gone := p.gone + [b.id]))
  }

  /** hfastrpc_buf_alloc when nothing else runs: the three in turn, each under its own hold of the lock. */
  function Alloc(p: Pool, size: nat, kind: Kind, page: nat, backed: bool): (Option<Buf>, Pool)
    requires page > 0
  {
    if size == 0 || size >= MAX_BUF_SIZE then (None, p)
    else
      var (r, p1) := TakeHeader(p, size, kind, page);
      if r.Some? then (r, p1)
      else
        var (r, p2) := TakeCached(p1, size, kind);
        if r.Some? then (r, p2) else MakeNew(p2, size, kind, page, backed)
  }

  /** hfastrpc_buf_free */
  function Free(p: Pool, b: Buf, cache: bool): Pool {
    var p1 := p.(live := p.live - {b});
    if b.hdr.Some? then
      if b.hdr.value < |p.hdrs| then p1.(hdrs := p.hdrs[b.hdr.value := false]) else p1
    else if cache && b.size < MAX_CACHE_BUF_SIZE && p.num <= MAX_CACHED_BUFS then
      p1.(cached := [b] + p.cached, num := p.num + 1)
    else p1.(gone := p.gone + [b.id])
  }

  /** The end of context_free: both buffers of a context, which may be one and the same. */
  function FreeContextBufs(p: Pool, buf: Option<Buf>, copybuf: Option<Buf>): Pool {
    var p1 := if buf.Some? then Free(p, buf.value, true) else p;
    if copybuf != buf && copybuf.Some? then Free(p1, copybuf.value, true) else p1
  }

  /** The regions under the lock, which others may run between, and the making of a new buffer. */
  datatype Step =
    | GetHeader(size: nat, kind: Kind)
    | GetCached(size: nat, kind: Kind)
    | GetNew(size: nat, kind: Kind, backed: bool)
    | FreeBuf(b: Buf, cache: bool)

  ghost predicate ContextBuf(p: Pool, b: Option<Buf>) {
    b.Some? ==> b.value in p.live && p.live[b.value] != UserHeap
  }

  /** Callers free what they hold, and heap buffers not through the cache. */
  function Next(p: Pool, s: Step, page: nat): Pool
    requires page > 0
  {
    match s
    case GetHeader(size, kind) => if 0 < size < MAX_BUF_SIZE then TakeHeader(p, size, kind, page).1 else p
    case GetCached(size, kind) => if 0 < size < MAX_BUF_SIZE then TakeCached(p, size, kind).1 else p
    case GetNew(size, kind, backed) => if 0 < size < MAX_BUF_SIZE then MakeNew(p, size, kind, page, backed).1 else p
    case FreeBuf(b, cache) =>
      if b in p.live && (cache ==> p.live[b] != UserHeap) then Free(p, b, cache) else p
  }

  // ---------------------------------------------------------------------------------------
  // The invariant
  // ---------------------------------------------------------------------------------------

  ghost predicate CachedOk(p: Pool, page: nat, i: nat)
    requires i < |p.cached| && page > 0
  {
    var b := p.cached[i];
    b.hdr.None? && |p.hdrs| <= b.id < p.next && b.size % page == 0 && b.id !in p.gone
  }

  ghost predicate LiveOk(p: Pool, page: nat, b: Buf)
    requires b in p.live && page > 0
  {
    && b.id < p.next && b.id !in p.gone
    && (b.hdr.None? ==> b.id >= |p.hdrs| && (p.live[b] != UserHeap ==> b.size % page == 0))
    && (b.hdr.Some? ==> b.hdr.value < |p.hdrs| && b == Header(b.hdr.value, page))
    && (b.hdr.Some? ==> p.hdrs[b.hdr.value] && p.live[b] == MetaData)
  }

  /** A buffer in use is not in the cache under any index. */
  ghost predicate NotCached(p: Pool, b: Buf) {
    forall i :: 0 <= i < |p.cached| ==> p.cached[i].id != b.id
  }

  ghost predicate LiveAlone(p: Pool, b: Buf) {
    NotCached(p, b) && forall c :: c in p.live && c != b ==> c.id != b.id
  }

  ghost predicate NoDupIds(cached: seq<Buf>) {
    forall i, j :: 0 <= i < j < |cached| ==> cached[i].id != cached[j].id
  }

  /** Every buffer ever made, other than the headers, is in the cache, in use or released. */
  ghost predicate Somewhere(p: Pool, id: nat) {
    || (exists i :: 0 <= i < |p.cached| && p.cached[i].id == id)
    || (exists b :: b in p.live && b.id == id)
    || id in p.gone
  }

  ghost predicate Inv(p: Pool, page: nat)
    requires page > 0
  {
    && p.num == |p.cached| <= MAX_CACHED_BUFS + 1
    && |p.hdrs| <= p.next
    && NoDupIds(p.cached) && Distinct(p.gone) && (forall id :: id in p.gone ==> |p.hdrs| <= id < p.next)
    && (forall i :: 0 <= i < |p.cached| ==> CachedOk(p, page, i))
    && (forall b :: b in p.live ==> LiveOk(p, page, b) && LiveAlone(p, b))
    && (forall id :: |p.hdrs| <= id < p.next ==> Somewhere(p, id))
  }

  lemma InitOk(hdrs: nat, page: nat)
    requires page > 0
    ensures Inv(Pool([], 0, seq(hdrs, _ => false), hdrs, map[], []), page)
  {
  }

  // ---------------------------------------------------------------------------------------
  // Releasing
  // ---------------------------------------------------------------------------------------

  lemma FreeKeepsItems(p: Pool, b: Buf, cache: bool, page: nat)
    requires page > 0 && Inv(p, page) && b in p.live && (cache ==> p.live[b] != UserHeap)
    ensures var p' := Free(p, b, cache);
      && (forall i :: 0 <= i < |p'.cached| ==> CachedOk(p', page, i))
      && (forall c :: c in p'.live ==> LiveOk(p', page, c) && LiveAlone(p', c))
  {
    var p' := Free(p, b, cache);
    assert LiveOk(p, page, b) && LiveAlone(p, b);
    forall i | 0 <= i < |p'.cached| ensures CachedOk(p', page, i) {
      if |p'.cached| == |p.cached| {
        assert CachedOk(p, page, i);
      } else if i > 0 {
        assert CachedOk(p, page, i - 1);
      }
    }
    forall c | c in p'.live ensures LiveOk(p', page, c) && LiveAlone(p', c) {
      assert LiveOk(p, page, c) && LiveAlone(p, c) && NotCached(p, c);
    }
  }

  lemma FreeKeepsPlaces(p: Pool, b: Buf, cache: bool, page: nat, id: nat)
    requires page > 0 && Inv(p, page) && b in p.live && |p.hdrs| <= id < p.next
    ensures Somewhere(Free(p, b, cache), id)
  {
    var p' := Free(p, b, cache);
    assert Somewhere(p, id) && LiveOk(p, page, b);
    if i :| 0 <= i < |p.cached| && p.cached[i].id == id {
      assert p'.cached[if |p'.cached| == |p.cached| then i else i + 1] == p.cached[i];
    } else if c :| c in p.live && c.id == id {
      if c == b {
        assert |p'.cached| > |p.cached| ==> p'.cached[0] == b;
      } else {
        assert c in p'.live;
      }
    }
  }

  /** Freeing a buffer in use moves it to exactly one other place. */
  lemma FreeKeeps(p: Pool, b: Buf, cache: bool, page: nat)
    requires page > 0 && Inv(p, page) && b in p.live && (cache ==> p.live[b] != UserHeap)
    ensures Inv(Free(p, b, cache), page)
  {
    FreeKeepsItems(p, b, cache, page);
    assert LiveOk(p, page, b) && LiveAlone(p, b) && NotCached(p, b);
    forall id | |p.hdrs| <= id < p.next ensures Somewhere(Free(p, b, cache), id) {
      FreeKeepsPlaces(p, b, cache, page, id);
    }
  }

  // ---------------------------------------------------------------------------------------
  // Allocating
  // ---------------------------------------------------------------------------------------

  lemma HeaderKeeps(p: Pool, h: nat, page: nat)
    requires page > 0 && Inv(p, page) && h < |p.hdrs| && !p.hdrs[h]
    ensures Inv(p.(hdrs := p.hdrs[h := true], live := p.live[Header(h, page) := MetaData]), page)
  {
    var b := Header(h, page);
    var p' := p.(hdrs := p.hdrs[h := true], live := p.live[b := MetaData]);
    HeaderIsFree(p, h, page);
    forall i | 0 <= i < |p'.cached| ensures CachedOk(p', page, i) {
      assert CachedOk(p, page, i);
    }
    forall c | c in p'.live ensures LiveOk(p', page, c) && LiveAlone(p', c) {
      assert c != b ==> LiveOk(p, page, c) && LiveAlone(p, c);
    }
    forall id | |p'.hdrs| <= id < p'.next ensures Somewhere(p', id) {
      assert Somewhere(p, id);
      if c :| c in p.live && c.id == id {
        assert c in p'.live;
      }
    }
  }

  /** The address of an unused header is nowhere. */
  lemma HeaderIsFree(p: Pool, h: nat, page: nat)
    requires page > 0 && Inv(p, page) && h < |p.hdrs| && !p.hdrs[h]
    ensures h !in p.gone && NotCached(p, Header(h, page)) && forall c :: c in p.live ==> c.id != h
  {
    var b := Header(h, page);
    forall i | 0 <= i < |p.cached| ensures p.cached[i].id != b.id {
      assert CachedOk(p, page, i);
    }
    forall c | c in p.live ensures c.id != h {
      assert LiveOk(p, page, c);
    }
  }

  lemma HitKeeps(p: Pool, i: nat, kind: Kind, page: nat)
    requires page > 0 && Inv(p, page) && i < |p.cached|
    ensures Inv(p.(cached := RemoveAt(p.cached, i), num := p.num - 1, live := p.live[p.cached[i] := kind]), page)
  {
    var b := p.cached[i];
    var p' := p.(cached := RemoveAt(p.cached, i), num := p.num - 1, live := p.live[b := kind]);
    assert CachedOk(p, page, i);
    forall j | 0 <= j < |p'.cached| ensures CachedOk(p', page, j) && p'.cached[j].id != b.id {
      assert CachedOk(p, page, if j < i then j else j + 1);
      assert p'.cached[j] == p.cached[if j < i then j else j + 1];
    }
    forall c | c in p'.live ensures LiveOk(p', page, c) && LiveAlone(p', c) {
      if c != b {
        assert LiveOk(p, page, c) && LiveAlone(p, c) && NotCached(p, c);
        assert p.cached[i].id != c.id;
      } else {
        assert forall d :: d in p.live ==> LiveAlone(p, d) && NotCached(p, d);
      }
    }
    forall id | |p'.hdrs| <= id < p'.next ensures Somewhere(p', id) {
      assert Somewhere(p, id);
      if j :| 0 <= j < |p.cached| && p.cached[j].id == id {
        assert j == i ==> b in p'.live;
        assert j < i ==> p'.cached[j] == p.cached[j];
        assert j > i ==> p'.cached[j - 1] == p.cached[j];
      } else if c :| c in p.live && c.id == id {
        assert c in p'.live;
      }
    }
  }

  lemma NewKeeps(p: Pool, size: nat, kind: Kind, page: nat)
    requires page > 0 && Inv(p, page) && (kind != UserHeap ==> size % page == 0)
    ensures Inv(p.(next := p.next + 1, live := p.live[Buf(p.next, size, None) := kind]), page)
  {
    var b := Buf(p.next, size, None);
    var made := p.(next := p.next + 1, live := p.live[b := kind]);
    assert p.next !in p.gone;
    forall i | 0 <= i < |p.cached| ensures CachedOk(made, page, i) && p.cached[i].id != b.id {
      assert CachedOk(p, page, i);
    }
    forall c | c in p.live ensures LiveOk(made, page, c) && c.id != b.id {
      assert LiveOk(p, page, c);
    }
    forall c | c in made.live ensures LiveAlone(made, c) {
      assert c != b ==> LiveAlone(p, c) && NotCached(p, c);
    }
    forall id | |p.hdrs| <= id < p.next + 1 ensures Somewhere(made, id) {
      if id < p.next {
        assert Somewhere(p, id);
        if c :| c in p.live && c.id == id {
          assert c in made.live;
        }
      } else {
        assert b in made.live;
      }
    }
  }

  /** A new buffer that cannot be backed is released at once. */
  lemma LostKeeps(p: Pool, page: nat)
    requires page > 0 && Inv(p, page)
    ensures Inv(p.(next := p.next + 1, gone := p.gone + [p.next]), page)
  {
    var lost := p.(next := p.next + 1, gone := p.gone + [p.next]);
    assert p.next !in p.gone;
    forall i | 0 <= i < |p.cached| ensures CachedOk(lost, page, i) {
      assert CachedOk(p, page, i);
    }
    forall c | c in lost.live ensures LiveOk(lost, page, c) && LiveAlone(lost, c) {
      assert LiveOk(p, page, c) && LiveAlone(p, c) && NotCached(p, c);
    }
    forall id | |p.hdrs| <= id < p.next + 1 ensures Somewhere(lost, id) {
      if id < p.next {
        assert Somewhere(p, id);
        if c :| c in p.live && c.id == id {
          assert c in lost.live;
        }
      }
    }
  }

  // ---------------------------------------------------------------------------------------
  // What an allocation gets and a release gives back
  // ---------------------------------------------------------------------------------------

  /** A persistent header that is free, for metadata of at most a page. */
  ghost predicate HeaderFits(p: Pool, size: nat, kind: Kind, page: nat) {
    kind == MetaData && size <= page && exists h :: 0 <= h < |p.hdrs| && !p.hdrs[h]
  }

  ghost predicate CachedFits(p: Pool, size: nat, kind: Kind) {
    kind != UserHeap && exists i :: 0 <= i < |p.cached| && p.cached[i].size >= size
  }

  /** The lowest free header is taken, and nothing else changes. */
  ghost predicate TookHeader(p: Pool, b: Buf, kind: Kind, page: nat, p': Pool) {
    exists h :: 0 <= h < |p.hdrs| && !p.hdrs[h] && (forall j :: 0 <= j < h ==> p.hdrs[j])
                && b == Buf(h, page, Some(h)) && p' == p.(hdrs := p.hdrs[h := true], live := p.live[b := kind])
  }

  /** The first of the smallest cached buffers that fit leaves the cache, and nothing else changes. */
  ghost predicate TookCached(p: Pool, size: nat, b: Buf, kind: Kind, p': Pool) {
    exists i :: 0 <= i < |p.cached| && IsBest(p.cached, size, |p.cached|, i) && b == p.cached[i]
                && p' == p.(cached := p.cached[..i] + p.cached[i + 1..], num := p.num - 1, live := p.live[b := kind])
  }

  /** A buffer at a new address, of whole pages unless it is for the heap; nothing else changes. */
  ghost predicate MadeNew(p: Pool, size: nat, b: Buf, kind: Kind, page: nat, p': Pool)
    requires page > 0
  {
    && b == Buf(p.next, if kind == UserHeap then size else PageAlign(size, page), None)
    && p' == p.(next := p.next + 1, live := p.live[b := kind])
  }

  lemma TakeHeaderIff(p: Pool, size: nat, kind: Kind, page: nat)
    ensures var (r, p') := TakeHeader(p, size, kind, page);
      && (r.Some? <==> HeaderFits(p, size, kind, page))
      && (if r.Some? then TookHeader(p, r.value, kind, page, p') else p' == p)
  {
    var h := FirstUnused(p.hdrs, 0);
    if h < |p.hdrs| {
      assert !p.hdrs[h];
    }
  }

  lemma TakeCachedIff(p: Pool, size: nat, kind: Kind)
    ensures var (r, p') := TakeCached(p, size, kind);
      && (r.Some? <==> CachedFits(p, size, kind))
      && (if r.Some? then TookCached(p, size, r.value, kind, p') else p' == p)
  {
    BestFitIsBest(p.cached, size, |p.cached|);
    if kind != UserHeap {
      var f := BestFit(p.cached, size, |p.cached|);
      if f.Some? {
        assert IsBest(p.cached, size, |p.cached|, f.value);
      }
    }
  }

  /**
    An allocation of a valid size succeeds if and only if a header is free for it, a cached buffer fits
    it, or pages and a mapping are to be had, and takes the first of the three that is so.  A failed one
    leaves all other buffers where they were.
   */
  lemma AllocSucceedsIff(p: Pool, size: nat, kind: Kind, page: nat, backed: bool)
    requires page > 0
    ensures var (r, p') := Alloc(p, size, kind, page, backed);
      && (r.Some? <==>
            && 0 < size < MAX_BUF_SIZE
            && (HeaderFits(p, size, kind, page) || CachedFits(p, size, kind) || backed))
      && (r.Some? ==>
            if HeaderFits(p, size, kind, page) then TookHeader(p, r.value, kind, page, p')
            else if CachedFits(p, size, kind) then TookCached(p, size, r.value, kind, p')
            else MadeNew(p, size, r.value, kind, page, p'))
      && (r.None? ==> p'.cached == p.cached && p'.num == p.num && p'.hdrs == p.hdrs && p'.live == p.live)
  {
    TakeHeaderIff(p, size, kind, page);
    TakeCachedIff(p, size, kind);
  }

  /**
    A released header is free again; a small enough buffer goes to the head of the cache while that
    holds no more than its limit, if the caller allows it; and any other buffer goes back to the system.
   */
  lemma FreeGivesBack(p: Pool, b: Buf, cache: bool, page: nat)
    requires page > 0 && Inv(p, page) && b in p.live
    ensures var p' := Free(p, b, cache);
      && p'.live == p.live - {b} && p'.next == p.next && |p'.hdrs| == |p.hdrs|
      && (b.hdr.Some? ==>
            && b.hdr.value < |p.hdrs| && p'.hdrs == p.hdrs[b.hdr.value := false]
            && p'.cached == p.cached && p'.gone == p.gone)
      && (b.hdr.None? && cache && b.size < 8 * 1024 * 1024 && |p.cached| <= 32 ==>
            p'.cached == [b] + p.cached && p'.num == p.num + 1 && p'.gone == p.gone && p'.hdrs == p.hdrs)
      && (b.hdr.None? && !(cache && b.size < 8 * 1024 * 1024 && |p.cached| <= 32) ==>
            p'.cached == p.cached && p'.num == p.num && p'.gone == p.gone + [b.id] && p'.hdrs == p.hdrs)
  {
    assert LiveOk(p, page, b);
  }

  /** What a metadata allocation takes from the headers a release puts back: the pool is as it was. */
  lemma HeaderRoundTrip(p: Pool, size: nat, page: nat, cache: bool)
    requires page > 0 && Inv(p, page) && HeaderFits(p, size, MetaData, page)
    ensures var (r, p') := TakeHeader(p, size, MetaData, page);
      r.Some? && Free(p', r.value, cache) == p
  {
    TakeHeaderIff(p, size, MetaData, page);
    var (r, p') := TakeHeader(p, size, MetaData, page);
    HeaderIsFree(p, r.value.hdr.value, page);
    assert p'.live - {r.value} == p.live;
    assert p'.hdrs[r.value.hdr.value := false] == p.hdrs;
  }

  /** A buffer that has just been cached serves the next request of its kind that it is the only best fit for. */
  lemma CachedIsReused(p: Pool, b: Buf, size: nat, kind: Kind, page: nat)
    requires page > 0 && Inv(p, page) && b in p.live && p.live[b] != UserHeap && b.hdr.None?
    requires b.size < 8 * 1024 * 1024 && |p.cached| <= 32 && kind != UserHeap && size <= b.size
    requires forall i :: 0 <= i < |p.cached| && p.cached[i].size >= size ==> b.size <= p.cached[i].size
    ensures var (r, p') := TakeCached(Free(p, b, true), size, kind);
      r == Some(b) && p'.cached == p.cached && p'.num == p.num && p'.live == p.live[b := kind] && p'.gone == p.gone
  {
    FreeGivesBack(p, b, true, page);
    HeadIsBest(p.cached, b, size);
    assert (p.live - {b})[b := kind] == p.live[b := kind];
  }

  /** A head that fits and is not larger than any other that fits is the best fit. */
  lemma HeadIsBest(cached: seq<Buf>, b: Buf, size: nat)
    requires b.size >= size
    requires forall i :: 0 <= i < |cached| && cached[i].size >= size ==> b.size <= cached[i].size
    ensures BestFit([b] + cached, size, |[b] + cached|) == Some(0) && RemoveAt([b] + cached, 0) == cached
  {
    var q := [b] + cached;
    BestFitIsBest(q, size, |q|);
    assert q[0].size >= size;
    assert forall i :: 0 < i < |q| ==> q[i] == cached[i - 1];
  }

  /** What the caller of an allocation gets: a buffer of its own, large enough for the request. */
  ghost predicate Served(p: Pool, size: nat, kind: Kind, page: nat, r: Option<Buf>, p': Pool)
    requires page > 0
  {
    && Inv(p', page)
    && (r.Some? ==> r.value in p'.live && r.value !in p.live && size <= r.value.size)
    && (r.Some? && kind != UserHeap ==> r.value.size % page == 0 && BufPageSize(size, page) <= r.value.size)
  }

  lemma HeaderServes(p: Pool, size: nat, kind: Kind, page: nat)
    requires page > 0 && Inv(p, page) && 0 < size
    ensures var (r, p') := TakeHeader(p, size, kind, page); Served(p, size, kind, page, r, p')
  {
    var h := FirstUnused(p.hdrs, 0);
    if kind == MetaData && size <= page && h < |p.hdrs| {
      HeaderKeeps(p, h, page);
      HeaderIsFree(p, h, page);
      QuotOfSelf(page);
      PageMultipleFits(size, page, page);
    }
  }

  lemma CachedServes(p: Pool, size: nat, kind: Kind, page: nat)
    requires page > 0 && Inv(p, page) && 0 < size
    ensures var (r, p') := TakeCached(p, size, kind); Served(p, size, kind, page, r, p')
  {
    if kind != UserHeap {
      var f := BestFit(p.cached, size, |p.cached|);
      BestFitIsBest(p.cached, size, |p.cached|);
      if f.Some? {
        HitKeeps(p, f.value, kind, page);
        assert CachedOk(p, page, f.value);
        assert forall c :: c in p.live ==> LiveAlone(p, c) && NotCached(p, c);
        PageMultipleFits(size, p.cached[f.value].size, page);
      }
    }
  }

  lemma NewServes(p: Pool, size: nat, kind: Kind, page: nat, backed: bool)
    requires page > 0 && Inv(p, page) && 0 < size
    ensures var (r, p') := MakeNew(p, size, kind, page, backed); Served(p, size, kind, page, r, p')
  {
    PageAlignFacts(size, page);
    var rounded := if kind == UserHeap then size else PageAlign(size, page);
    NewKeeps(p, rounded, kind, page);
    LostKeeps(p, page);
    assert forall c :: c in p.live ==> LiveOk(p, page, c);
    if kind != UserHeap {
      PageMultipleFits(size, rounded, page);
    }
  }

  lemma AllocKeeps(p: Pool, size: nat, kind: Kind, page: nat, backed: bool)
    requires page > 0 && Inv(p, page)
    ensures var (r, p') := Alloc(p, size, kind, page, backed); Served(p, size, kind, page, r, p')
  {
    if 0 < size < MAX_BUF_SIZE {
      HeaderServes(p, size, kind, page);
      CachedServes(p, size, kind, page);
      NewServes(p, size, kind, page, backed);
    }
  }

  lemma FreeLeavesOthers(p: Pool, b: Buf, cache: bool)
    ensures Free(p, b, cache).live == p.live - {b}
    ensures Free(p, b, cache).live.Keys == p.live.Keys - {b}
  {
  }

  /** Both buffers of a context leave it once, also when the copies share the metadata buffer. */
  lemma FreeContextKeeps(p: Pool, buf: Option<Buf>, copybuf: Option<Buf>, page: nat)
    requires page > 0 && Inv(p, page) && ContextBuf(p, buf) && ContextBuf(p, copybuf)
    ensures var p' := FreeContextBufs(p, buf, copybuf);
      && Inv(p', page)
      && p'.live.Keys ==
           p.live.Keys - (if buf.Some? then {buf.value} else {}) - (if copybuf.Some? then {copybuf.value} else {})
  {
    var p1 := if buf.Some? then Free(p, buf.value, true) else p;
    if buf.Some? {
      FreeKeeps(p, buf.value, true, page);
      FreeLeavesOthers(p, buf.value, true);
    }
    if copybuf != buf && copybuf.Some? {
      assert copybuf.value in p1.live && p1.live[copybuf.value] != UserHeap;
      FreeKeeps(p1, copybuf.value, true, page);
      FreeLeavesOthers(p1, copybuf.value, true);
    }
  }

  lemma NextKeeps(p: Pool, s: Step, page: nat)
    requires page > 0 && Inv(p, page)
    ensures Inv(Next(p, s, page), page)
  {
    match s
    case GetHeader(size, kind) =>
      if 0 < size {
        HeaderServes(p, size, kind, page);
      }
    case GetCached(size, kind) =>
      if 0 < size {
        CachedServes(p, size, kind, page);
      }
    case GetNew(size, kind, backed) =>
      if 0 < size {
        NewServes(p, size, kind, page, backed);
      }
    case FreeBuf(b, cache) =>
      if b in p.live && (cache ==> p.live[b] != UserHeap) {
        FreeKeeps(p, b, cache, page);
      }
  }

  function Run(p: Pool, steps: seq<Step>, page: nat): Pool
    requires page > 0
    decreases |steps|
  {
    if steps == [] then p else Run(Next(p, steps[0], page), steps[1..], page)
  }

  /** An allocation that nothing overlaps is a run of its regions, and so is the end of a context. */
  lemma WholeIsRun(p: Pool, size: nat, kind: Kind, page: nat, backed: bool, buf: Option<Buf>, copybuf: Option<Buf>)
    requires page > 0 && 0 < size < MAX_BUF_SIZE && ContextBuf(p, buf) && ContextBuf(p, copybuf)
    ensures Alloc(p, size, kind, page, backed).1 ==
      if HeaderFits(p, size, kind, page) then Run(p, [GetHeader(size, kind)], page)
      else if CachedFits(p, size, kind) then Run(p, [GetHeader(size, kind), GetCached(size, kind)], page)
      else Run(p, [GetHeader(size, kind), GetCached(size, kind), GetNew(size, kind, backed)], page)
    ensures buf.Some? && copybuf.Some? && buf != copybuf ==>
      FreeContextBufs(p, buf, copybuf) == Run(p, [FreeBuf(buf.value, true), FreeBuf(copybuf.value, true)], page)
    ensures buf.Some? && (copybuf == buf || copybuf.None?) ==>
      FreeContextBufs(p, buf, copybuf) == Run(p, [FreeBuf(buf.value, true)], page)
  {
    TakeHeaderIff(p, size, kind, page);
    TakeCachedIff(p, size, kind);
    var three := [GetHeader(size, kind), GetCached(size, kind), GetNew(size, kind, backed)];
    assert three[1..] == [GetCached(size, kind), GetNew(size, kind, backed)];
    assert three[1..][1..] == [GetNew(size, kind, backed)] && three[1..][1..][1..] == [];
    var p1, p2 := Next(p, three[0], page), Next(Next(p, three[0], page), three[1], page);
    RunOne(p, three[0], page);
    RunOne(p1, three[1], page);
    RunOne(p2, three[2], page);
    assert [three[0], three[1]][1..] == [three[1]];
    if buf.Some? {
      RunOne(p, FreeBuf(buf.value, true), page);
      if copybuf.Some? && buf != copybuf {
        FreeLeavesOthers(p, buf.value, true);
        RunOne(Next(p, FreeBuf(buf.value, true), page), FreeBuf(copybuf.value, true), page);
        assert [FreeBuf(buf.value, true), FreeBuf(copybuf.value, true)][1..] == [FreeBuf(copybuf.value, true)];
      }
    }
  }

  lemma RunOne(p: Pool, s: Step, page: nat)
    requires page > 0
    ensures Run(p, [s], page) == Next(p, s, page)
  {
    assert [s][1..] == [];
  }

  lemma {:induction false} RunKeeps(p: Pool, steps: seq<Step>, page: nat)
    requires page > 0 && Inv(p, page)
    ensures Inv(Run(p, steps, page), page)
    decreases |steps|
  {
    if steps != [] {
      NextKeeps(p, steps[0], page);
      RunKeeps(Next(p, steps[0], page), steps[1..], page);
    }
  }

  /**
    After any run, also of allocations and releases that overlap, the counter is the length of the cache and at most one
    above the limit, the cache holds no buffer twice and none that is in use, and no buffer has been
    lost or released twice.
   */
  lemma CacheIsSound(hdrs: nat, steps: seq<Step>, page: nat)
    requires page > 0
    ensures var p := Run(Pool([], 0, seq(hdrs, _ => false), hdrs, map[], []), steps, page);
      && p.num == |p.cached| <= MAX_CACHED_BUFS + 1
      && (forall i, j :: 0 <= i < j < |p.cached| ==> p.cached[i].id != p.cached[j].id)
      && (forall b, i :: b in p.live && 0 <= i < |p.cached| ==> b.id != p.cached[i].id)
      && Distinct(p.gone)
      && (forall id :: |p.hdrs| <= id < p.next ==> Somewhere(p, id))
  {
    InitOk(hdrs, page);
    var p0 := Pool([], 0, seq(hdrs, _ => false), hdrs, map[], []);
    RunKeeps(p0, steps, page);
    var p := Run(p0, steps, page);
    forall b, i | b in p.live && 0 <= i < |p.cached| ensures b.id != p.cached[i].id {
      assert LiveAlone(p, b) && NotCached(p, b);
    }
  }

  // ---------------------------------------------------------------------------------------
  // The pool in memory
  // ---------------------------------------------------------------------------------------

  class BufPool {
    var cached: seq<Buf>
    var num: int
    const hdrs: array<bool>
    var next: nat
    var live: map<Buf, Kind>
    var gone: seq<nat>

    constructor (headers: nat)
      ensures View() == Pool([], 0, seq(headers, _ => false), headers, map[], []) && fresh(hdrs)
    {
      cached, num, next, live, gone := [], 0, headers, map[], [];
      hdrs := new bool[headers](_ => false);
      new;
      assert hdrs[..] == seq(headers, _ => false);
    }

    function View(): Pool
      reads this, hdrs
    {
      Pool(cached, num, hdrs[..], next, live, gone)
    }

    /** hfastrpc_get_persistent_buf */
    method GetPersistent(size: nat, kind: Kind, page: nat) returns (r: Option<Buf>)
      modifies this`live, hdrs
      ensures (r, View()) == TakeHeader(old(View()), size, kind, page)
    {
      r := None;
      if kind == MetaData && size <= page {
        var h := ScanHeaders(hdrs);
        if h < hdrs.Length {
          live := live[Header(h, page) := kind];
          r := Some(Header(h, page));
        }
      }
    }

    /** hfastrpc_get_cached_buf */
    method GetCached(size: nat, kind: Kind) returns (r: Option<Buf>)
      modifies this`cached, this`num, this`live
      ensures (r, View()) == TakeCached(old(View()), size, kind)
    {
      r := None;
      if kind != UserHeap {
        var fr := ScanCache(cached, size);
        BestFitIsBest(cached, size, |cached|);
        if fr.Some? {
          var b := cached[fr.value];
          cached, num, live := RemoveAt(cached, fr.value), num - 1, live[b := kind];
          r := Some(b);
        }
      }
    }

    method BufAlloc(size: nat, kind: Kind, page: nat, backed: bool) returns (r: Option<Buf>)
      requires page > 0
      modifies this, hdrs
      ensures (r, View()) == Alloc(old(View()), size, kind, page, backed)
    {
      if size == 0 || size >= MAX_BUF_SIZE {
        return None;
      }
      r := GetPersistent(size, kind, page);
      if r.Some? {
        return;
      }
      r := GetCached(size, kind);
      if r.Some? {
        return;
      }
      var b := Buf(next, if kind == UserHeap then size else PageAlign(size, page), None);
      next := next + 1;
      if !backed {
        gone := gone + [b.id];
        return None;
      }
      live := live[b := kind];
      r := Some(b);
    }

    method BufFree(b: Buf, cache: bool)
      modifies this, hdrs
      ensures View() == Free(old(View()), b, cache)
    {
      live := live - {b};
      if b.hdr.Some? {
        if b.hdr.value < hdrs.Length {
          hdrs[b.hdr.value] := false;
        }
        return;
      }
      if cache && b.size < MAX_CACHE_BUF_SIZE {
        if !(num > MAX_CACHED_BUFS) {
          cached := [b] + cached;
          num := num + 1;
          return;
        }
      }
      gone := gone + [b.id];
    }

    /** The end of context_free. */
    method FreeContext(buf: Option<Buf>, copybuf: Option<Buf>)
      modifies this, hdrs
      ensures View() == FreeContextBufs(old(View()), buf, copybuf)
    {
      if buf.Some? {
        BufFree(buf.value, true);
      }
      if copybuf != buf && copybuf.Some? {
        BufFree(copybuf.value, true);
      }
    }
  }
}

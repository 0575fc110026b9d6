/**
  A call from its user arguments to its packed buffer: context_build_overlap followed by the
  packing passes of get_args, stated without the overlap list.
 */
module Marshalling {
  import opened Common
  import opened Counting
  import opened Overlaps
  import opened Packing
  import opened Pages

  predicate Shares(a: RemoteBuf, b: RemoteBuf) {
    a.pv < b.pv + b.len && b.pv < a.pv + a.len
  }

  /** No mapped argument shares an address with an argument that is copied. */
  ghost predicate Clear(lpra: seq<RemoteBuf>, mapped: set<nat>) {
    forall i, j :: 0 <= i < |lpra| && 0 <= j < |lpra| ==> Unshared(lpra, mapped, i, j)
  }

  predicate Unshared(lpra: seq<RemoteBuf>, mapped: set<nat>, i: nat, j: nat)
    requires i < |lpra| && j < |lpra|
  {
    i in mapped && j !in mapped && lpra[i].len > 0 && lpra[j].len > 0 ==> !Shares(lpra[i], lpra[j])
  }

  ghost predicate Lists(c: Call, lpra: seq<RemoteBuf>) {
    forall k :: 0 <= k < |c.q| ==> ListsAt(c, lpra, k)
  }

  ghost predicate ListsAt(c: Call, lpra: seq<RemoteBuf>, k: nat)
    requires k < |c.q|
  {
    var o := c.q[k];
    o.raix < |lpra| && o.start == lpra[o.raix].pv && o.end == lpra[o.raix].pv + lpra[o.raix].len
  }

  /** What the caller can check before the call is enough for a right placement. */
  lemma ClearIsSeparable(c: Call, lpra: seq<RemoteBuf>)
    requires c.Valid() && Lists(c, lpra) && Clear(lpra, c.mapped)
    ensures Separable(c)
  {
    forall j, k | 0 <= j < |c.q| && 0 <= k < |c.q| ensures !Obstructs(c, j, k) {
      if Obstructs(c, j, k) {
        ObstructionShares(c, lpra, j, k);
      }
    }
  }

  /** Between an obstructing piece and the copied argument behind it two intervals overlap. */
  lemma ObstructionShares(c: Call, lpra: seq<RemoteBuf>, j: nat, k: nat)
    requires c.Valid() && Lists(c, lpra) && j < |c.q| && k < |c.q| && Obstructs(c, j, k)
    ensures !Clear(lpra, c.mapped)
  {
    var i := j + 1;
    while c.Skip(i)
      invariant j < i <= k && forall m :: j <= m < i ==> c.Skip(m)
      decreases k - i
    {
      i := i + 1;
    }
    LeaderLeads(c.q, k);
    assert !Leads(c.q, i);
    MaxEndIsMax(c.q, i);
    var m :| 0 <= m < i && c.q[m].end == MaxEnd(c.q, i);
    GapEndsHighest(c, j);
    MaxEndIsMax(c.q, j);
    assert m >= j && c.Skip(m);
    assert OverlapCmp(c.q[m], c.q[i]) <= 0;
    assert ListsAt(c, lpra, m) && ListsAt(c, lpra, i);
    assert !Unshared(lpra, c.mapped, c.q[m].raix, c.q[i].raix);
  }

  lemma GapEndsHighest(c: Call, j: nat)
    requires c.Valid() && j < |c.q| && Gap(c, j)
    ensures MaxEnd(c.q, j) < c.q[j].end
  {
    assert IsCut(c.q, j, c.inbufs);
  }

  datatype Outcome = BadAddress | Finished(status: Status)

  /** What a caller gets for one argument that is copied. */
  ghost predicate ArgDelivered(arg: RemoteBuf, input: bool, lo: int, buf: Buf, page: nat, user: nat -> byte,
                               mem: Memory, pv: int, pg: PhyPage)
    requires page > 0
  {
    && lo <= pv && pv + arg.len <= buf.va + buf.size
    && pg.size % page == 0
    && IsLeastCover(pg.addr, pg.size / page, buf.da + (pv - buf.va), arg.len, page)
    && (input ==> forall a :: pv <= a < pv + arg.len ==> a in mem && mem[a] == user(arg.pv + (a - pv)))
  }

  ghost predicate CallDelivered(lpra: seq<RemoteBuf>, inbufs: nat, mapped: set<nat>, lo: int, buf: Buf, page: nat,
                                user: nat -> byte, mem: Memory, rpra: seq<int>, pages: seq<PhyPage>)
    requires page > 0 && |rpra| == |pages| == |lpra|
  {
    forall i :: 0 <= i < |lpra| && i !in mapped && lpra[i].len > 0 ==>
      ArgDelivered(lpra[i], i < inbufs, lo, buf, page, user, mem, rpra[i], pages[i])
  }

  lemma DeliveredForCaller(c: Call, lpra: seq<RemoteBuf>, ps: seq<nat>, lo: int, buf: Buf, page: nat, user: nat -> byte,
                           mem: Memory, rpra: seq<int>, pages: seq<PhyPage>)
    requires c.Valid() && Lists(c, lpra) && page > 0 && |rpra| == |pages| == |lpra|
    requires Permutes(ps, |lpra|) && |c.q| == |ps| && forall k :: 0 <= k < |ps| ==> c.q[k].raix == ps[k]
    requires forall k :: 0 <= k < |c.q| ==> ListsAt(c, lpra, k)
    requires forall k :: 0 <= k < |c.q| ==>
      Delivered(c, lo, buf.va + buf.size, buf, page, user, mem, k, rpra[c.q[k].raix], pages[c.q[k].raix])
    ensures CallDelivered(lpra, c.inbufs, c.mapped, lo, buf, page, user, mem, rpra, pages)
  {
    forall i | 0 <= i < |lpra| && i !in c.mapped && lpra[i].len > 0
      ensures ArgDelivered(lpra[i], i < c.inbufs, lo, buf, page, user, mem, rpra[i], pages[i])
    {
      var k := PermutationCovers(ps, |lpra|, i);
      assert ListsAt(c, lpra, k);
    }
  }

  /** Some copy fails exactly when the user memory of some copied input cannot be read. */
  lemma FaultsForCaller(c: Call, lpra: seq<RemoteBuf>, ps: seq<nat>, faults: set<nat>)
    requires c.Valid() && Lists(c, lpra)
    requires Permutes(ps, |lpra|) && |c.q| == |ps| && forall k :: 0 <= k < |ps| ==> c.q[k].raix == ps[k]
    ensures AnyFault(c, faults) <==>
      exists i :: 0 <= i < c.inbufs && i < |lpra| && lpra[i].len > 0 && i !in c.mapped && i in faults
  {
    if k :| 0 <= k < |c.q| && Faults(c, faults, k) {
      assert ListsAt(c, lpra, k) && c.q[k].raix in faults;
    }
    if i :| 0 <= i < c.inbufs && i < |lpra| && lpra[i].len > 0 && i !in c.mapped && i in faults {
      var k := PermutationCovers(ps, |lpra|, i);
      assert ListsAt(c, lpra, k) && Faults(c, faults, k);
    }
  }

  /** `c` is the call that the driver packs: the swept list of these arguments. */
  ghost predicate CallOf(c: Call, lpra: seq<RemoteBuf>, inbufs: nat, mapped: set<nat>) {
    && c.Valid() && c.inbufs == inbufs && c.mapped == mapped
    && |c.q| == |lpra| && c.Names(|lpra|) && Lists(c, lpra)
  }

  /** Address a is in the space, starting where `rpra` says, of an unmapped input. */
  ghost predicate InInput(lpra: seq<RemoteBuf>, inbufs: nat, mapped: set<nat>, rpra: seq<int>, a: int)
    requires |rpra| == |lpra|
  {
    exists i :: 0 <= i < |lpra| && i < inbufs && i !in mapped && InSpan(a, rpra[i], lpra[i].len)
  }

  lemma WrittenForCaller(c: Call, lpra: seq<RemoteBuf>, inbufs: nat, mapped: set<nat>, rpra: seq<int>, a: int)
    requires CallOf(c, lpra, inbufs, mapped) && |rpra| == |lpra|
    ensures IsWritten(c, rpra, a) ==> InInput(lpra, inbufs, mapped, rpra, a)
  {
    if IsWritten(c, rpra, a) {
      var k :| 0 <= k < |c.q| && c.q[k].raix < c.inbufs && c.q[k].raix < |rpra| && c.q[k].raix !in c.mapped
               && InSpan(a, rpra[c.q[k].raix], c.Len(k));
      assert ListsAt(c, lpra, k);
    }
  }

  /** No other argument with a length shares an address with argument i. */
  ghost predicate Alone(lpra: seq<RemoteBuf>, i: nat)
    requires i < |lpra|
  {
    forall j :: 0 <= j < |lpra| && j != i && lpra[j].len > 0 ==> !Shares(lpra[i], lpra[j])
  }

  lemma FollowerIsNotAlone(c: Call, lpra: seq<RemoteBuf>, inbufs: nat, mapped: set<nat>, k: nat)
    requires CallOf(c, lpra, inbufs, mapped) && k < |c.q| && c.Len(k) > 0 && c.q[k].raix < |lpra|
    requires !Leads(c.q, k)
    ensures !Alone(lpra, c.q[k].raix)
  {
    MaxEndIsMax(c.q, k);
    var j :| 0 <= j < k && c.q[j].end == MaxEnd(c.q, k);
    assert OverlapCmp(c.q[j], c.q[k]) <= 0 && ListsAt(c, lpra, j) && ListsAt(c, lpra, k);
    assert Shares(lpra[c.q[k].raix], lpra[c.q[j].raix]);
  }

  lemma AlignedForCaller(c: Call, lpra: seq<RemoteBuf>, inbufs: nat, mapped: set<nat>, ps: seq<nat>, rpra: seq<int>,
      i: nat)
    requires CallOf(c, lpra, inbufs, mapped) && |rpra| == |lpra| && LeadersAligned(c, rpra)
    requires Permutes(ps, |lpra|) && |c.q| == |ps| && forall k :: 0 <= k < |ps| ==> c.q[k].raix == ps[k]
    requires i < |lpra| && i !in mapped && lpra[i].len > 0 && Alone(lpra, i)
    ensures rpra[i] % BALIGN == 0
  {
    var k := PermutationCovers(ps, |lpra|, i);
    assert ListsAt(c, lpra, k);
    if !Leads(c.q, k) {
      FollowerIsNotAlone(c, lpra, inbufs, mapped, k);
    }
  }

  lemma PackedForCaller(c: Call, lpra: seq<RemoteBuf>, inbufs: nat, mapped: set<nat>, i: nat)
    requires CallOf(c, lpra, inbufs, mapped)
    ensures IsPacked(c, i) ==> i < |lpra| && i !in mapped && lpra[i].len > 0
  {
    if k :| 0 <= k < |c.q| && !c.Skip(k) && c.q[k].raix == i {
      assert ListsAt(c, lpra, k);
    }
  }

  /** What packing says of the overlap list, said of the arguments. */
  lemma CallerSees(c: Call, lpra: seq<RemoteBuf>, inbufs: nat, mapped: set<nat>, ps: seq<nat>, rpra: seq<int>,
      mem0: Memory, mem: Memory)
    requires CallOf(c, lpra, inbufs, mapped) && |rpra| == |lpra|
    requires Permutes(ps, |lpra|) && |c.q| == |ps| && forall k :: 0 <= k < |ps| ==> c.q[k].raix == ps[k]
    ensures (forall a :: !IsWritten(c, rpra, a) ==> SameAt(mem0, mem, a)) ==>
      forall a :: !InInput(lpra, inbufs, mapped, rpra, a) ==> SameAt(mem0, mem, a)
    ensures LeadersAligned(c, rpra) ==> SharelessAligned(lpra, mapped, rpra)
  {
    forall a ensures IsWritten(c, rpra, a) ==> InInput(lpra, inbufs, mapped, rpra, a) {
      WrittenForCaller(c, lpra, inbufs, mapped, rpra, a);
    }
    if LeadersAligned(c, rpra) {
      forall i | 0 <= i < |lpra| && i !in mapped && lpra[i].len > 0 && Alone(lpra, i) ensures rpra[i] % BALIGN == 0 {
        AlignedForCaller(c, lpra, inbufs, mapped, ps, rpra, i);
      }
    }
  }

  /** An argument that is copied or reserved and shares nothing lands on a multiple of BALIGN. */
  ghost predicate SharelessAligned(lpra: seq<RemoteBuf>, mapped: set<nat>, rpra: seq<int>)
    requires |rpra| == |lpra|
  {
    forall i :: 0 <= i < |lpra| && i !in mapped && lpra[i].len > 0 && Alone(lpra, i) ==> rpra[i] % BALIGN == 0
  }

  /**
    What success means for the caller: only the space of unmapped inputs has been written, and an
    argument that shares nothing is aligned.  If no mapped argument shares an address with a copied
    one, every copied argument lies in the data area, is covered by its page descriptor and, if it is
    an input, holds the user's bytes; and nothing outside the data area has changed.
   */
  ghost predicate Succeeds(lpra: seq<RemoteBuf>, inbufs: nat, mapped: set<nat>, lo: int, buf: Buf, page: nat,
                           user: nat -> byte, mem0: Memory, mem: Memory, rpra: seq<int>, pages: seq<PhyPage>)
    requires page > 0 && |rpra| == |pages| == |lpra|
  {
    && (forall a :: !InInput(lpra, inbufs, mapped, rpra, a) ==> SameAt(mem0, mem, a))
    && SharelessAligned(lpra, mapped, rpra)
    && (Clear(lpra, mapped) ==>
          && CallDelivered(lpra, inbufs, mapped, lo, buf, page, user, mem, rpra, pages)
          && forall a :: !(lo <= a < buf.va + buf.size) ==> SameAt(mem0, mem, a))
  }

  lemma DoneSucceeds(c: Call, lpra: seq<RemoteBuf>, inbufs: nat, mapped: set<nat>, ps: seq<nat>, metalen: nat,
                     meta: Buf, buf: Buf, page: nat, user: nat -> byte, mem0: Memory, mem: Memory, rpra: seq<int>,
                     pages: seq<PhyPage>)
    requires page > 0 && CallOf(c, lpra, inbufs, mapped) && |rpra| == |pages| == |lpra|
    requires Permutes(ps, |lpra|) && |c.q| == |ps| && forall k :: 0 <= k < |ps| ==> c.q[k].raix == ps[k]
    requires LeadersAligned(c, rpra) && forall a :: !IsWritten(c, rpra, a) ==> SameAt(mem0, mem, a)
    requires Separable(c) ==> AllDelivered(c, metalen, meta, buf, page, user, mem0, mem, rpra, pages)
    ensures Succeeds(lpra, inbufs, mapped, Start(buf, meta, metalen), buf, page, user, mem0, mem, rpra, pages)
  {
    CallerSees(c, lpra, inbufs, mapped, ps, rpra, mem0, mem);
    if Clear(lpra, mapped) {
      ClearIsSeparable(c, lpra);
      assert forall k :: 0 <= k < |c.q| ==> ListsAt(c, lpra, k);
      DeliveredForCaller(c, lpra, ps, Start(buf, meta, metalen), buf, page, user, mem, rpra, pages);
    }
  }

  /** Packing for the list that the sweep has left. */
  method MarshalSwept(c: Call, lpra: seq<RemoteBuf>, ghost ps: seq<nat>, metalen: nat, meta: Buf,
                      alloc: nat -> Option<Buf>, page: nat, user: nat -> byte, faults: set<nat>, mem0: Memory,
                      rpra: array<int>, pages: array<PhyPage>)
    returns (status: Status, copybuf: Option<Buf>, mem: Memory)
    requires rpra.Length == pages.Length == |lpra| && CallOf(c, lpra, c.inbufs, c.mapped)
    requires Permutes(ps, |lpra|) && |c.q| == |ps| && forall k :: 0 <= k < |ps| ==> c.q[k].raix == ps[k]
    requires ValidPage(page) && 0 < metalen < MAX_BUF_SIZE && GoodBuf(meta, page)
    requires BufPageSize(metalen, page) <= meta.size
    requires forall n: nat :: alloc(n).Some? ==>
      GoodBuf(alloc(n).value, page) && n <= alloc(n).value.size && alloc(n).value != meta
    modifies rpra, pages
    ensures status != NoSpace
    ensures status == TooLong <==> OverLong(c)
    ensures status == NoMemory <==> !OverLong(c) && OutOfMemory(c, metalen, page, alloc)
    ensures status == CopyFault <==> !OverLong(c) && !OutOfMemory(c, metalen, page, alloc) && AnyFault(c, faults)
    ensures status == TooLong || status == NoMemory ==> mem == mem0
    ensures status == Done ==> copybuf.Some?
    ensures status == Done ==>
      (copybuf.value == meta <==> Align(metalen) + c.Cursor(0, |c.q|) <= BufPageSize(metalen, page))
    ensures status == Done ==> Succeeds(lpra, c.inbufs, c.mapped, Start(copybuf.value, meta, metalen), copybuf.value,
                                        page, user, mem0, mem, rpra[..], pages[..])
    ensures forall i :: 0 <= i < |lpra| && (i in c.mapped || lpra[i].len == 0) ==>
      rpra[i] == old(rpra[i]) && pages[i] == old(pages[i])
  {
    status, copybuf, mem := GetArgs(c, metalen, meta, alloc, page, user, faults, mem0, rpra, pages);
    if status == Done {
      DoneSucceeds(c, lpra, c.inbufs, c.mapped, ps, metalen, meta, copybuf.value, page, user, mem0, mem, rpra[..],
                   pages[..]);
    }
    forall i | 0 <= i < |lpra| && (i in c.mapped || lpra[i].len == 0) ensures !IsPacked(c, i) {
      PackedForCaller(c, lpra, c.inbufs, c.mapped, i);
    }
  }

  /** The whole marshalling of the copied arguments; `c` is the call that is packed. */
  method Marshal(lpra: seq<RemoteBuf>, inbufs: nat, mapped: set<nat>, metalen: nat, meta: Buf,
                 alloc: nat -> Option<Buf>, page: nat, user: nat -> byte, faults: set<nat>, mem0: Memory,
                 rpra: array<int>, pages: array<PhyPage>)
    returns (outcome: Outcome, copybuf: Option<Buf>, mem: Memory, ghost c: Call)
    requires rpra.Length == pages.Length == |lpra|
    requires ValidPage(page) && 0 < metalen < MAX_BUF_SIZE && GoodBuf(meta, page)
    requires BufPageSize(metalen, page) <= meta.size
    requires forall n: nat :: alloc(n).Some? ==>
      GoodBuf(alloc(n).value, page) && n <= alloc(n).value.size && alloc(n).value != meta
    modifies rpra, pages
    ensures outcome == BadAddress <==> exists b <- lpra :: Wraps(b)
    ensures outcome != Finished(NoSpace)
    ensures outcome != BadAddress ==> CallOf(c, lpra, inbufs, mapped)
    ensures outcome == Finished(TooLong) <==> outcome != BadAddress && OverLong(c)
    ensures outcome == Finished(NoMemory) <==>
      outcome != BadAddress && !OverLong(c) && OutOfMemory(c, metalen, page, alloc)
    ensures outcome == Finished(CopyFault) <==>
      && outcome != BadAddress && !OverLong(c) && !OutOfMemory(c, metalen, page, alloc)
      && exists i :: 0 <= i < inbufs && i < |lpra| && lpra[i].len > 0 && i !in mapped && i in faults
    ensures outcome == BadAddress || outcome == Finished(TooLong) || outcome == Finished(NoMemory) ==> mem == mem0
    ensures outcome == Finished(Done) ==> copybuf.Some?
    ensures outcome == Finished(Done) ==>
      (copybuf.value == meta <==> Align(metalen) + c.Cursor(0, |c.q|) <= BufPageSize(metalen, page))
    ensures outcome == Finished(Done) ==> Succeeds(lpra, inbufs, mapped, Start(copybuf.value, meta, metalen),
                                                   copybuf.value, page, user, mem0, mem, rpra[..], pages[..])
    ensures forall i :: 0 <= i < |lpra| && (i in mapped || lpra[i].len == 0) ==>
      rpra[i] == old(rpra[i]) && pages[i] == old(pages[i])
  {
    mem, copybuf := mem0, None;
    var overs := new Overlap[|lpra|](_ => Overlap(0, 0, 0, 0, 0, 0, false));
    var overps := new nat[|lpra|](_ => 0);
    var ok := BuildOverlap(lpra, inbufs, overs, overps);
    c := Call([], inbufs, mapped);
    if !ok {
      return BadAddress, copybuf, mem, c;
    }
    var call := Call(View(overs[..], overps[..]), inbufs, mapped);
    c := call;
    ListedFromArrays(c, lpra, overs[..], overps[..]);
    FaultsForCaller(c, lpra, overps[..], faults);
    var status;
    status, copybuf, mem := MarshalSwept(call, lpra, overps[..], metalen, meta, alloc, page, user, faults, mem0, rpra,
      pages);
    outcome := Finished(status);
  }

  lemma ListedFromArrays(c: Call, lpra: seq<RemoteBuf>, overs: seq<Overlap>, ps: seq<nat>)
    requires |overs| == |lpra| && Permutes(ps, |lpra|) && c.q == View(overs, ps)
    requires forall i :: 0 <= i < |lpra| ==>
      overs[i].raix == i && overs[i].start == lpra[i].pv && overs[i].end == lpra[i].pv + lpra[i].len
    ensures Lists(c, lpra) && c.Names(|lpra|)
    ensures forall k :: 0 <= k < |ps| ==> c.q[k].raix == ps[k]
  {
  }
}

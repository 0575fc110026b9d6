/**
  The table of shared mappings of one client: vfastrpc_mmap_find, _create, _remove, _remove_fd and
  _free, with the three counters of a map and the extra reference of a KEEP_MAP map.
  Callers hold map_mutex, so each operation is one step.
 */
module MapTables {
  import opened Common
  import opened Counting

  const INT_MAX: nat := 0x7fff_ffff
  const HEAP_ADDR: nat := 4
  const REMOTE_HEAP_ADDR: nat := 8

  /** The address of a struct vfastrpc_mmap; a new allocation never repeats one. */
  type Id = nat

  datatype Mmap = Mmap(fd: int, flags: nat, va: u64, len: u64, raddr: u64, keep: bool,
                       refs: int, ctxRefs: int, dmaRefs: int)

  /** What a caller asks for: a descriptor, an address range, flags and the KEEP_MAP attribute. */
  datatype Request = Request(fd: int, va: u64, len: u64, flags: nat, keep: bool)

  datatype FindError = Overflow | TooMany | NotFound
  datatype FindResult = Found(id: Id) | Missed(error: FindError)

  predicate HeapFlags(flags: nat) {
    flags == HEAP_ADDR || flags == REMOTE_HEAP_ADDR
  }

  /** A map that mmap_free only warns about. */
  predicate Stuck(m: Mmap) {
    HeapFlags(m.flags) || m.refs <= 0 || m.ctxRefs < 0 || m.dmaRefs < 0
  }

  function KeepRef(m: Mmap): int {
    if m.keep then 1 else 0
  }

  // ---------------------------------------------------------------------------------------
  // The operations as functions of the table
  // ---------------------------------------------------------------------------------------

  /**
    Allocated maps, the client's list (head first), the next address and the addresses released so
    far, in order.
   */
  datatype Table = Table(heap: map<Id, Mmap>, listed: seq<Id>, next: Id, freed: seq<Id>) {

    predicate Closed() {
      forall i :: 0 <= i < |listed| ==> listed[i] in heap
    }

    function Put(id: Id, m: Mmap): Table {
      this.(heap := heap[id := m])
    }

    /** vfastrpc_mmap_add */
    function Add(id: Id): Table
      requires id in heap
    {
      if HeapFlags(heap[id].flags) then this else this.(listed := [id] + listed)
    }

    function Release(id: Id): Table {
      Table(heap - {id}, Without(listed, id), next, freed + [id])
    }

    /** hfastrpc_mmap_free without force. */
    function Free(id: Id): Table
      requires id in heap
    {
      var m := heap[id];
      if Stuck(m) then this
      else if m.refs == 1 && m.ctxRefs == 0 && m.dmaRefs == 0 then Release(id)
      else Put(id, m.(refs := m.refs - 1))
    }

    /** hfastrpc_mmap_free with force: all counters drop at once. */
    function ForceFree(id: Id): Table
      requires id in heap
    {
      if Stuck(heap[id]) then this else Release(id)
    }

    /** The end of file_free: the head of the list is force-freed until none is left, or for ever. */
    function TornDown(): Table
      decreases |listed|
    {
      if listed == [] || listed[0] !in heap || Stuck(heap[listed[0]]) then this
      else ForceFree(listed[0]).TornDown()
    }

    /** vfastrpc_mmap_find; with `take` the map found gains a reference. */
    function Find(r: Request, take: bool): (FindResult, Table)
      requires Closed()
    {
      if (r.va + r.len) % WORD < r.va then (Missed(Overflow), this)
      else if HeapFlags(r.flags) then (Missed(NotFound), this)
      else
        match First(heap, listed, m => Serves(m, r))
        case None => (Missed(NotFound), this)
        case Some(id) =>
          if id !in heap || !take then (Found(id), this)
          else if heap[id].refs + 1 == INT_MAX then (Missed(TooMany), this)
          else (Found(id), Put(id, heap[id].(refs := heap[id].refs + 1)))
    }

    /**
      hfastrpc_mmap_create: share a map that serves the request, or make one.  `mapOk` is the
      outcome of attaching the dma-buf and mapping it for the device.
     */
    function Create(r: Request, mapOk: bool): (Option<Id>, Table)
      requires Closed()
    {
      var (found, t) := Find(r, true);
      if found.Found? then (Some(found.id), t)
      else
        var m := Mmap(r.fd, r.flags, r.va, r.len, 0, r.keep, if r.keep then 2 else 1, 0, 0);
        var t1 := Put(next, m).(next := next + 1);
        if HeapFlags(r.flags) || !mapOk then (None, t1.Free(next))
        else (Some(next), t1.Add(next))
    }

    /** vfastrpc_mmap_remove: take a map that only its user holds off the list. */
    function Remove(fd: int, va: u64, len: u64): (Option<Id>, Table)
      requires Closed()
    {
      match First(heap, listed, m => Removable(m, fd, va, len))
      case None => (None, this)
      case Some(id) =>
        if id !in heap then (None, this)
        else
          var m := heap[id];
          (Some(id), Put(id, m.(refs := m.refs - KeepRef(m))).(listed := Without(listed, id)))
    }

    /** The error path of mem_unmap: restore the reference that Remove took and list the map again. */
    function Restore(id: Id): Table
      requires id in heap
    {
      var m := heap[id];
      Put(id, m.(refs := m.refs + KeepRef(m))).Add(id)
    }

    /** One visit of hfastrpc_mmap_remove_fd. */
    function Unkeep(id: Id, fd: int): Table
      requires id in heap
    {
      var m := heap[id];
      if m.fd == fd && m.keep then Put(id, m.(keep := false)).Free(id) else this
    }

    predicate Abnormal(id: Id, fd: int)
      requires id in heap
    {
      heap[id].fd == fd && heap[id].keep && (heap[id].refs > 1 || heap[id].ctxRefs != 0)
    }

    /** Whether hfastrpc_mmap_remove_fd meets a map that something else still refers to. */
    predicate MeetsAbnormal(ids: seq<Id>, fd: int)
      decreases |ids|
    {
      ids != [] &&
      if ids[0] in heap then Abnormal(ids[0], fd) || Unkeep(ids[0], fd).MeetsAbnormal(ids[1..], fd)
      else MeetsAbnormal(ids[1..], fd)
    }

    /** hfastrpc_mmap_remove_fd, over the list as it was when the loop started. */
    function RemoveFd(ids: seq<Id>, fd: int): Table
      decreases |ids|
    {
      if ids == [] then this
      else if ids[0] in heap then Unkeep(ids[0], fd).RemoveFd(ids[1..], fd)
      else RemoveFd(ids[1..], fd)
    }
  }

  /** The map covers the requested range of the same descriptor. */
  predicate Serves(m: Mmap, r: Request) {
    r.va >= m.va && (r.va + r.len) % WORD <= (m.va + m.len) % WORD && m.fd == r.fd
  }

  predicate Removable(m: Mmap, fd: int, va: u64, len: u64) {
    && (fd < 0 || m.fd == fd) && m.raddr == va && (m.raddr + m.len) % WORD == (va + len) % WORD
    && (m.refs == 1 || (m.refs == 2 && m.keep))
    && m.ctxRefs == 0 && m.dmaRefs == 0
  }

  /** The first listed map that satisfies p. */
  function First(heap: map<Id, Mmap>, ids: seq<Id>, p: Mmap -> bool): Option<Id>
    requires forall i :: 0 <= i < |ids| ==> ids[i] in heap
  {
    if ids == [] then None
    else if p(heap[ids[0]]) then Some(ids[0])
    else First(heap, ids[1..], p)
  }

  lemma {:induction false} FirstFacts(heap: map<Id, Mmap>, ids: seq<Id>, p: Mmap -> bool)
    requires forall i :: 0 <= i < |ids| ==> ids[i] in heap
    ensures var f := First(heap, ids, p);
      match f
      case None => forall i :: 0 <= i < |ids| ==> !p(heap[ids[i]])
      case Some(id) =>
        exists k :: 0 <= k < |ids| && ids[k] == id && p(heap[id]) && forall i :: 0 <= i < k ==> !p(heap[ids[i]])
  {
    if ids != [] && !p(heap[ids[0]]) {
      FirstFacts(heap, ids[1..], p);
      if First(heap, ids, p).Some? {
        var id := First(heap, ids, p).value;
        var k :| 0 <= k < |ids[1..]| && ids[1..][k] == id && forall i :: 0 <= i < k ==> !p(heap[ids[1..][i]]);
        assert ids[k + 1] == id;
      }
    }
  }

  // ---------------------------------------------------------------------------------------
  // What each operation does to the table
  // ---------------------------------------------------------------------------------------

  /**
    A map of exactly this range and, unless `fd` is negative, of this descriptor, that only its user
    holds: one reference, or two with KEEP_MAP, no context and no handle.
   */
  ghost predicate OnlyUsersRange(m: Mmap, fd: int, va: u64, len: u64) {
    && m.raddr == va && m.len == len && (fd < 0 || m.fd == fd)
    && (m.refs == 1 || (m.refs == 2 && m.keep)) && m.ctxRefs == 0 && m.dmaRefs == 0
  }

  ghost predicate HasRange(t: Table, fd: int, va: u64, len: u64) {
    exists id <- t.listed :: id in t.heap && OnlyUsersRange(t.heap[id], fd, va, len)
  }

  /** `id` is the first listed map that satisfies p. */
  ghost predicate IsFirst(t: Table, id: Id, p: Mmap -> bool) {
    exists k :: 0 <= k < |t.listed| && t.listed[k] == id && id in t.heap && p(t.heap[id])
                && forall j :: 0 <= j < k && t.listed[j] in t.heap ==> !p(t.heap[t.listed[j]])
  }

  /** The tables agree on every map but `id`. */
  ghost predicate SameBut(t: Table, t': Table, id: Id) {
    forall x :: x != id ==>
      && (x in t'.heap <==> x in t.heap) && (x in t.heap ==> t'.heap[x] == t.heap[x])
      && (x in t'.listed <==> x in t.listed)
  }

  lemma RangeIsExact(m: Mmap, fd: int, va: u64, len: u64)
    ensures Removable(m, fd, va, len) <==> OnlyUsersRange(m, fd, va, len)
  {
    if m.raddr == va && (m.raddr + m.len) % WORD == (va + len) % WORD {
      var d := (va + m.len) / WORD - (va + len) / WORD;
      assert m.len - len == d * WORD;
    }
  }

  /**
    An unmap takes the first listed map of exactly the range and descriptor that only its user holds,
    and none exactly if there is none.  The map leaves the list and loses its KEEP_MAP reference.
   */
  lemma RemoveTakes(t: Table, fd: int, va: u64, len: u64)
    requires t.Closed()
    ensures var (r, t') := t.Remove(fd, va, len);
      && (r.None? <==> forall id <- t.listed :: id in t.heap ==> !OnlyUsersRange(t.heap[id], fd, va, len))
      && (r.None? ==> t' == t)
      && (r.Some? ==>
            && IsFirst(t, r.value, m => OnlyUsersRange(m, fd, va, len))
            && r.value in t.heap && r.value in t'.heap && r.value !in t'.listed && SameBut(t, t', r.value)
            && t'.heap[r.value]
               == t.heap[r.value].(refs := t.heap[r.value].refs - if t.heap[r.value].keep then 1 else 0)
            && t'.next == t.next && t'.freed == t.freed)
  {
    var (r, t') := t.Remove(fd, va, len);
    FirstFacts(t.heap, t.listed, m => Removable(m, fd, va, len));
    forall m: Mmap | true ensures Removable(m, fd, va, len) <==> OnlyUsersRange(m, fd, va, len) {
      RangeIsExact(m, fd, va, len);
    }
    if r.Some? {
      forall x ensures x in Without(t.listed, r.value) <==> x in t.listed && x != r.value {
        WithoutMembers(t.listed, r.value, x);
      }
    }
  }

  /**
    t' is t without the first listed map of exactly this range and descriptor that only its user holds;
    it is released unless it was a KEEP_MAP one with its last reference, whose record stays behind.
   */
  ghost predicate Unmapped(t: Table, t': Table, fd: int, va: u64, len: u64) {
    exists id ::
      && IsFirst(t, id, m => OnlyUsersRange(m, fd, va, len)) && id in t.heap
      && SameBut(t, t', id) && id !in t'.listed && t'.next == t.next
      && (id in t'.heap <==> t.heap[id].keep && t.heap[id].refs == 1)
      && t'.freed == t.freed + if id in t'.heap then [] else [id]
  }

  lemma RemoveThenFree(t: Table, fd: int, va: u64, len: u64)
    requires t.Closed() && t.Remove(fd, va, len).0.Some?
    requires forall id <- t.listed :: id in t.heap && !HeapFlags(t.heap[id].flags)
    ensures var (r, t') := t.Remove(fd, va, len); r.value in t'.heap && Unmapped(t, t'.Free(r.value), fd, va, len)
  {
    RemoveTakes(t, fd, va, len);
    var (r, t') := t.Remove(fd, va, len);
    FreeDrops(t', r.value);
  }

  /** The map has the descriptor and its range, if it does not wrap, contains the requested one. */
  ghost predicate CoversRequest(m: Mmap, r: Request) {
    m.fd == r.fd && m.va <= r.va && r.va + r.len <= Wrap64(m.va + m.len)
  }

  /**
    A search finds the first listed map that covers the request and fails if the request wraps, asks
    for heap memory or finds none, or if the references of the map found are used up.  A map that is
    taken gains exactly one reference.
   */
  lemma FindTakes(t: Table, r: Request, take: bool)
    requires t.Closed()
    ensures var (f, t') := t.Find(r, take);
      && (f == Missed(Overflow) <==> r.va + r.len >= WORD)
      && (f == Missed(NotFound) <==>
            && r.va + r.len < WORD
            && (HeapFlags(r.flags) || forall id <- t.listed :: id in t.heap ==> !CoversRequest(t.heap[id], r)))
      && (f == Missed(TooMany) ==>
            take && exists id :: id in t.heap && t.heap[id].refs + 1 == INT_MAX
                                 && IsFirst(t, id, m => CoversRequest(m, r)))
      && (f.Found? ==> IsFirst(t, f.id, m => CoversRequest(m, r)) && f.id in t.heap && f.id in t'.heap)
      && (f.Found? && take ==>
            && t.heap[f.id].refs + 1 != INT_MAX
            && t' == t.(heap := t.heap[f.id := t.heap[f.id].(refs := t.heap[f.id].refs + 1)]))
      && (f.Missed? || !take ==> t' == t)
  {
    FirstFacts(t.heap, t.listed, m => Serves(m, r));
    if r.va + r.len < WORD {
      assert (r.va + r.len) % WORD == r.va + r.len;
      assert forall m: Mmap :: Serves(m, r) <==> CoversRequest(m, r);
    } else {
      assert (r.va + r.len) % WORD == r.va + r.len - WORD;
    }
  }

  /** The record of a new map. */
  function NewMap(r: Request): Mmap {
    Mmap(r.fd, r.flags, r.va, r.len, 0, r.keep, if r.keep then 2 else 1, 0, 0)
  }

  /**
    A creation shares the first listed map that covers the request, with one reference more, or makes
    one that records the request, with one reference of its own and one for KEEP_MAP, and lists it;
    it fails exactly if neither can be had, and then no other map has changed.
   */
  lemma CreateMakes(t: Table, r: Request, mapOk: bool)
    requires t.Closed() && t.next !in t.heap && t.next !in t.listed
    ensures var (f, (id, t')) := (t.Find(r, true).0, t.Create(r, mapOk));
      && (id.Some? <==> f.Found? || (mapOk && !HeapFlags(r.flags)))
      && (f.Found? ==> id == Some(f.id) && t' == t.Find(r, true).1)
      && (f.Missed? && id.Some? ==>
            id.value == t.next && t' == Table(t.heap[t.next := NewMap(r)], [t.next] + t.listed, t.next + 1, t.freed))
      && (id.None? ==> SameBut(t, t', t.next) && t.next !in t'.listed)
  {
    var (id, t') := t.Create(r, mapOk);
    var f := t.Find(r, true).0;
    forall x ensures x in Without(t.listed, t.next) <==> x in t.listed && x != t.next {
      WithoutMembers(t.listed, t.next, x);
    }
  }

  /**
    A free lowers the references by one and does nothing else, unless that leaves all three counters 0:
    then the map leaves the list and is released.  A map without references is left alone.
   */
  lemma FreeDrops(t: Table, id: Id)
    requires id in t.heap
    ensures var (m, t') := (t.heap[id], t.Free(id));
      && SameBut(t, t', id)
      && (HeapFlags(m.flags) || m.refs <= 0 || m.ctxRefs < 0 || m.dmaRefs < 0 ==> t' == t)
      && (!HeapFlags(m.flags) && m.refs > 0 && m.ctxRefs >= 0 && m.dmaRefs >= 0 ==>
            if m.refs == 1 && m.ctxRefs == 0 && m.dmaRefs == 0 then
              id !in t'.heap && id !in t'.listed && t'.freed == t.freed + [id] && t'.next == t.next
            else
              t' == t.(heap := t.heap[id := m.(refs := m.refs - 1)]))
  {
    forall x ensures x in Without(t.listed, id) <==> x in t.listed && x != id {
      WithoutMembers(t.listed, id, x);
    }
  }

  /** What a sweep over the maps of descriptor fd leaves of map x. */
  ghost predicate Unkept(t: Table, t': Table, fd: int, x: Id)
    requires x in t.heap
  {
    var m := t.heap[x];
    if m.fd != fd || !m.keep then x in t'.heap && t'.heap[x] == m && (x in t'.listed <==> x in t.listed)
    else if Stuck(m) then x in t'.heap && t'.heap[x] == m.(keep := false)
    else if m.refs == 1 && m.ctxRefs == 0 && m.dmaRefs == 0 then x !in t'.heap && x !in t'.listed && x in t'.freed
    else x in t'.heap && t'.heap[x] == m.(keep := false, refs := m.refs - 1) && (x in t'.listed <==> x in t.listed)
  }

  lemma UnkeepSteps(t: Table, id: Id, fd: int)
    requires id in t.heap
    ensures Unkept(t, t.Unkeep(id, fd), fd, id) && SameBut(t, t.Unkeep(id, fd), id)
    ensures t.freed <= t.Unkeep(id, fd).freed
  {
    FreeDrops(t.Put(id, t.heap[id].(keep := false)), id);
  }

  /**
    The sweep ends the KEEP_MAP of every map of the descriptor in the list, and of no other, and drops
    exactly the reference that stood for it; who has no other is released.
   */
  lemma {:induction false} RemoveFdEndsKeep(t: Table, ids: seq<Id>, fd: int, x: Id)
    requires Distinct(ids) && x in t.heap
    ensures var t' := t.RemoveFd(ids, fd);
      && t.freed <= t'.freed
      && (x in ids ==> Unkept(t, t', fd, x))
      && (x !in ids ==> x in t'.heap && t'.heap[x] == t.heap[x] && (x in t'.listed <==> x in t.listed))
    decreases |ids|
  {
    if ids != [] {
      var id := ids[0];
      var t1 := if id in t.heap then t.Unkeep(id, fd) else t;
      assert x in ids <==> x == id || x in ids[1..];
      if id in t.heap {
        UnkeepSteps(t, id, fd);
      }
      if x in t1.heap {
        RemoveFdEndsKeep(t1, ids[1..], fd, x);
      } else {
        ReleasedStays(t1, ids[1..], fd, x);
      }
    }
  }

  lemma {:induction false} ReleasedStays(t: Table, ids: seq<Id>, fd: int, x: Id)
    requires x !in t.heap && x !in t.listed
    ensures x !in t.RemoveFd(ids, fd).heap && x !in t.RemoveFd(ids, fd).listed && t.freed <= t.RemoveFd(ids, fd).freed
    decreases |ids|
  {
    if ids != [] {
      if ids[0] in t.heap {
        UnkeepSteps(t, ids[0], fd);
        ReleasedStays(t.Unkeep(ids[0], fd), ids[1..], fd, x);
      } else {
        ReleasedStays(t, ids[1..], fd, x);
      }
    }
  }

  /**
    A failed unmap leaves the table as it was, counter by counter, with or without KEEP_MAP: only
    the place of the map in the list may differ.
   */
  lemma RestoreUndoesRemove(t: Table, fd: int, va: u64, len: u64)
    requires t.Closed() && Distinct(t.listed)
    requires forall id <- t.listed :: id in t.heap && !HeapFlags(t.heap[id].flags)
    ensures var (r, t') := t.Remove(fd, va, len);
      r.Some? ==> var back := t'.Restore(r.value);
        && back.heap == t.heap && multiset(back.listed) == multiset(t.listed)
        && back.next == t.next && back.freed == t.freed
  {
    var (r, t') := t.Remove(fd, va, len);
    if r.Some? {
      FirstFacts(t.heap, t.listed, m => Removable(m, fd, va, len));
      WithoutBag(t.listed, r.value);
      OnceInDistinct(t.listed, r.value);
      var back := t'.Restore(r.value);
      assert back.heap == t.heap;
      assert multiset(back.listed) == multiset{r.value} + multiset(t'.listed);
    }
  }

  lemma OnceInDistinct(ids: seq<Id>, id: Id)
    requires Distinct(ids) && id in ids
    ensures multiset(ids)[id] == 1
  {
    var k :| 0 <= k < |ids| && ids[k] == id;
    assert ids == ids[..k] + [id] + ids[k + 1..];
    assert id !in ids[..k] && id !in ids[k + 1..];
  }

  /** munmap puts the map back without restoring the reference, so it undoes Remove only without KEEP_MAP. */
  lemma ReAddUndoesRemoveIffNotKept(t: Table, fd: int, va: u64, len: u64)
    requires t.Closed() && Distinct(t.listed)
    requires forall id <- t.listed :: id in t.heap && !HeapFlags(t.heap[id].flags)
    ensures var (r, t') := t.Remove(fd, va, len);
      r.Some? ==> (t'.Add(r.value).heap == t.heap <==> !t.heap[r.value].keep)
  {
    var (r, t') := t.Remove(fd, va, len);
    if r.Some? {
      FirstFacts(t.heap, t.listed, m => Removable(m, fd, va, len));
      assert t'.Add(r.value).heap[r.value].refs == t.heap[r.value].refs - KeepRef(t.heap[r.value]);
      if !t.heap[r.value].keep {
        assert t'.Add(r.value).heap == t.heap;
      }
    }
  }

  lemma ReleaseCloses(t: Table, id: Id)
    requires t.Closed()
    ensures t.Release(id).Closed()
    ensures t.listed != [] && t.listed[0] == id ==> |t.Release(id).listed| < |t.listed|
  {
    var t1 := t.Release(id);
    forall i | 0 <= i < |t1.listed| ensures t1.listed[i] in t1.heap {
      WithoutMembers(t.listed, id, t1.listed[i]);
    }
  }

  /**
    The teardown of a client ends, and has then released every listed map, if and only if no listed
    map is stuck.
   */
  lemma {:induction false} TeardownEndsIff(t: Table)
    requires t.Closed()
    ensures t.TornDown().listed == [] <==> forall id <- t.listed :: id in t.heap && !Stuck(t.heap[id])
    ensures t.TornDown().listed == [] ==> forall id <- t.listed :: id in t.TornDown().freed
    ensures t.freed <= t.TornDown().freed
    decreases |t.listed|
  {
    if t.listed != [] && !Stuck(t.heap[t.listed[0]]) {
      var id := t.listed[0];
      var t1 := t.ForceFree(id);
      forall x ensures x in t1.listed <==> x in t.listed && x != id {
        WithoutMembers(t.listed, id, x);
      }
      ReleaseCloses(t, id);
      TeardownEndsIff(t1);
      assert t1.freed[|t.freed|] == id;
    }
  }

  // ---------------------------------------------------------------------------------------
  // The table in memory
  // ---------------------------------------------------------------------------------------

  class MapList {
    var heap: map<Id, Mmap>
    var listed: seq<Id>
    var next: Id
    var freed: seq<Id>

    constructor ()
      ensures View() == Table(map[], [], 0, [])
    {
      heap, listed, next, freed := map[], [], 0, [];
    }

    function View(): Table
      reads this
    {
      Table(heap, listed, next, freed)
    }

    method Find(r: Request, take: bool) returns (res: FindResult)
      requires View().Closed()
      modifies this`heap
      ensures (res, View()) == old(View()).Find(r, take)
    {
      if (r.va + r.len) % WORD < r.va {
        return Missed(Overflow);
      }
      if !HeapFlags(r.flags) {
        var i := 0;
        while i < |listed|
          invariant i <= |listed| && heap == old(heap)
          invariant First(heap, listed[i..], m => Serves(m, r)) == First(heap, listed, m => Serves(m, r))
        {
          var id := listed[i];
          if Serves(heap[id], r) {
            if take {
              if heap[id].refs + 1 == INT_MAX {
                return Missed(TooMany);
              }
              heap := heap[id := heap[id].(refs := heap[id].refs + 1)];
            }
            return Found(id);
          }
          i := i + 1;
        }
      }
      res := Missed(NotFound);
    }

    method Free(id: Id, force: bool)
      requires id in heap
      modifies this
      ensures View() == if force then old(View()).ForceFree(id) else old(View()).Free(id)
    {
      var m := heap[id];
      if HeapFlags(m.flags) || m.refs <= 0 || m.ctxRefs < 0 || m.dmaRefs < 0 {
        return;
      }
      heap := heap[id := m.(refs := m.refs - 1)];
      if force {
        heap := heap[id := heap[id].(refs := 0, ctxRefs := 0, dmaRefs := 0)];
      }
      if heap[id].refs == 0 && heap[id].ctxRefs == 0 && heap[id].dmaRefs == 0 {
        heap := heap - {id};
        listed := Without(listed, id);
        freed := freed + [id];
        assert heap == old(heap) - {id};
      }
    }

    /**
      The end of file_free.  A head that mmap_free does not release comes back for ever: the driver's
      loop does not end then, and `ends` says so.
     */
    method FreeAll() returns (ends: bool)
      requires View().Closed()
      modifies this
      ensures View() == old(View()).TornDown()
      ensures ends <==> forall id <- old(listed) :: id in old(heap) && !Stuck(old(heap)[id])
    {
      TeardownEndsIff(View());
      ghost var end := View().TornDown();
      while listed != []
        invariant View().Closed() && View().TornDown() == end
        decreases |listed|
      {
        var id := listed[0];
        if Stuck(heap[id]) {
          return false;
        }
        ReleaseCloses(View(), id);
        Free(id, true);
      }
      ends := true;
    }

    method Create(r: Request, mapOk: bool) returns (res: Option<Id>)
      requires View().Closed()
      modifies this
      ensures (res, View()) == old(View()).Create(r, mapOk)
    {
      var found := Find(r, true);
      if found.Found? {
        return Some(found.id);
      }
      var id := next;
      heap := heap[id := Mmap(r.fd, r.flags, r.va, r.len, 0, r.keep, if r.keep then 2 else 1, 0, 0)];
      next := next + 1;
      if HeapFlags(r.flags) || !mapOk {
        Free(id, false);
        return None;
      }
      listed := [id] + listed;
      res := Some(id);
    }

    method Remove(fd: int, va: u64, len: u64) returns (res: Option<Id>)
      requires View().Closed()
      modifies this`heap, this`listed
      ensures (res, View()) == old(View()).Remove(fd, va, len)
      ensures res.None? <==> forall id <- old(listed) :: id in old(heap) ==> !OnlyUsersRange(old(heap)[id], fd, va, len)
      ensures res.Some? ==> IsFirst(old(View()), res.value, m => OnlyUsersRange(m, fd, va, len)) && res.value !in listed
    {
      RemoveTakes(View(), fd, va, len);
      var i := 0;
      while i < |listed|
        invariant i <= |listed| && View() == old(View())
        invariant First(heap, listed[i..], m => Removable(m, fd, va, len))
                  == First(heap, listed, m => Removable(m, fd, va, len))
      {
        var id := listed[i];
        var m := heap[id];
        if Removable(m, fd, va, len) {
          if m.keep {
            heap := heap[id := m.(refs := m.refs - 1)];
          }
          listed := Without(listed, id);
          assert m.keep || heap == heap[id := m.(refs := m.refs - KeepRef(m))];
          return Some(id);
        }
        i := i + 1;
      }
      res := None;
    }

    /** The loop keeps the next entry before it visits one, so it runs over the list as it was. */
    method RemoveFd(fd: int) returns (tooMany: bool)
      requires View().Closed()
      modifies this
      ensures View() == old(View()).RemoveFd(old(listed), fd)
      ensures tooMany <==> old(View()).MeetsAbnormal(old(listed), fd)
    {
      tooMany := false;
      var ids := listed;
      var i := 0;
      while i < |ids|
        invariant i <= |ids|
        invariant View().RemoveFd(ids[i..], fd) == old(View()).RemoveFd(ids, fd)
        invariant tooMany || View().MeetsAbnormal(ids[i..], fd) <==> old(View()).MeetsAbnormal(ids, fd)
      {
        var id := ids[i];
        assert ids[i..][0] == id && ids[i..][1..] == ids[i + 1..];
        if id in heap && heap[id].fd == fd && heap[id].keep {
          if heap[id].refs > 1 || heap[id].ctxRefs != 0 {
            tooMany := true;
          }
          heap := heap[id := heap[id].(keep := false)];
          Free(id, false);
        }
        i := i + 1;
      }
    }

    /**
      mem_unmap: `dspOk` is the outcome of the flag check and the call to the DSP.  A success unmaps the
      first map of exactly this range and descriptor that only its user holds, and releases it unless it
      was a KEEP_MAP one with its last reference; a failure leaves the table as it was.
     */
    method MemUnmap(fd: int, va: u64, len: u64, dspOk: bool) returns (ok: bool)
      requires View().Closed() && Distinct(listed)
      requires forall id <- listed :: id in heap && !HeapFlags(heap[id].flags)
      modifies this
      ensures !ok ==> heap == old(heap) && multiset(listed) == multiset(old(listed)) && freed == old(freed)
      ensures ok <==> dspOk && HasRange(old(View()), fd, va, len)
      ensures ok ==> Unmapped(old(View()), View(), fd, va, len)
      ensures ok ==> var (r, t) := old(View()).Remove(fd, va, len); r.Some? && View() == t.Free(r.value)
    {
      ghost var t0 := View();
      RemoveTakes(t0, fd, va, len);
      var r := Remove(fd, va, len);
      if r.None? {
        return false;
      }
      ok := dspOk;
      if ok {
        RemoveThenFree(t0, fd, va, len);
        Free(r.value, false);
      } else {
        RestoreUndoesRemove(t0, fd, va, len);
        var m := heap[r.value];
        if m.keep {
          heap := heap[r.value := m.(refs := m.refs + 1)];
        }
        assert heap == heap[r.value := m.(refs := m.refs + KeepRef(m))] || m.keep;
        listed := [r.value] + listed;
      }
    }

    /**
      The mapping part of munmap: any descriptor, and an error path that does not restore the
      reference.  `dspOk` is the outcome of the call to the DSP, if one is made.
     */
    method Munmap(va: u64, len: u64, dspOk: bool) returns (ok: bool)
      requires View().Closed() && Distinct(listed)
      requires forall id <- listed :: id in heap && !HeapFlags(heap[id].flags)
      modifies this
      ensures ok <==> dspOk && HasRange(old(View()), -1, va, len)
      ensures ok ==> Unmapped(old(View()), View(), -1, va, len)
      ensures ok ==> var (r, t) := old(View()).Remove(-1, va, len); r.Some? && View() == t.Free(r.value)
      ensures !ok ==> multiset(listed) == multiset(old(listed)) && freed == old(freed)
      ensures !ok ==> var r := old(View()).Remove(-1, va, len).0;
        heap == old(heap) <==> r.None? || (r.value in old(heap) && !old(heap)[r.value].keep)
    {
      ghost var t0 := View();
      RemoveTakes(t0, -1, va, len);
      var r := Remove(-1, va, len);
      if r.None? {
        return false;
      }
      ok := dspOk;
      if ok {
        RemoveThenFree(t0, -1, va, len);
        Free(r.value, false);
      } else {
        ReAddUndoesRemoveIffNotKept(t0, -1, va, len);
        RestoreUndoesRemove(t0, -1, va, len);
        listed := [r.value] + listed;
      }
    }
  }
}

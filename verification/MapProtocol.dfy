/**
  Runs of the map table: contexts, DSP responses and map/unmap requests take steps in any order.
  Every step is one region under map_mutex; a mem_unmap releases that mutex while it waits for the
  DSP, so it is a start step and a later finish step, with at most one in flight (internal_map_mutex).
 */
module MapProtocol {
  import opened Common
  import opened Counting
  import opened MapTables

  /** A buffer argument of a live context. */
  datatype ArgKey = ArgKey(ctx: nat, arg: nat)

  /**
    `holds` is maps[] of all live contexts, buffer arguments only; `owners` counts the references
    that completed or pending map requests stand for; `removing` is the map a pending unmap took.
   */
  datatype World = World(t: Table, holds: map<ArgKey, Id>, owners: multiset<Id>, removing: Option<Id>)

  datatype Step =
    | GetBuffer(key: ArgKey, req: Request, mapOk: bool)  // get_args, a buffer argument with a descriptor
    | GetHandle(req: Request, mapOk: bool)               // get_args, a handle argument
    | UndoHandle(id: Id)                                 // get_args, a later handle failed
    | DropBuffer(key: ArgKey)                            // put_args or context_free
    | DspReleases(fd: int)                               // put_args, a descriptor in the DSP's list
    | UserMap(req: Request, mapOk: bool)                 // mem_map or mmap
    | UserMapped(id: Id, raddr: u64)                     // its call to the DSP succeeded
    | UserMapFails(id: Id)                               // or failed
    | RemoveStart(fd: int, va: u64, len: u64)            // mem_unmap or munmap
    | RemoveDone
    | RemoveFails                                        // the error path of mem_unmap
    | MunmapFails                                        // the error path of munmap
    | RemoveFd(fd: int)                                  // munmap_fd

  const EMPTY: World := World(Table(map[], [], 0, []), map[], multiset{}, None)

  function AddCtxRef(t: Table, id: Id): Table
    requires id in t.heap
  {
    t.Put(id, t.heap[id].(ctxRefs := t.heap[id].ctxRefs + 1))
  }

  function SubCtxRef(t: Table, id: Id): Table
    requires id in t.heap
  {
    var m := t.heap[id];
    if m.ctxRefs != 0 then t.Put(id, m.(ctxRefs := m.ctxRefs - 1)) else t
  }

  function DropOne(t: Table, id: Id): Table {
    if id in t.heap then SubCtxRef(t, id).Free(id) else t
  }

  function SetDmaRefs(t: Table, id: Id, n: int): Table
    requires id in t.heap
  {
    t.Put(id, t.heap[id].(dmaRefs := n))
  }

  /** The step, where its guard holds. */
  function Next(w: World, s: Step): World
    requires w.t.Closed()
  {
    match s
    case GetBuffer(key, req, mapOk) =>
      if key in w.holds then w else
      var (r, t) := w.t.Create(req, mapOk);
      if r.None? || r.value !in t.heap then w.(t := t)
      else w.(t := AddCtxRef(t, r.value), holds := w.holds[key := r.value])
    case GetHandle(req, mapOk) =>
      var (r, t) := w.t.Create(req.(keep := false), mapOk);
      if r.None? || r.value !in t.heap then w.(t := t)
      else w.(t := SetDmaRefs(t, r.value, t.heap[r.value].dmaRefs + 1))
    case UndoHandle(id) =>
      if id !in w.t.listed || id !in w.t.heap || w.t.heap[id].dmaRefs == 0 then w
      else w.(t := SetDmaRefs(w.t, id, w.t.heap[id].dmaRefs - 1).Free(id))
    case DropBuffer(key) =>
      if key !in w.holds || w.holds[key] !in w.t.heap then w
      else World(SubCtxRef(w.t, w.holds[key]).Free(w.holds[key]), w.holds - {key}, w.owners, w.removing)
    case DspReleases(fd) =>
      var (f, t) := w.t.Find(Request(fd, 0, 0, 0, false), false);
      if f.Missed? || f.id !in w.t.heap || w.t.heap[f.id].dmaRefs == 0 then w
      else w.(t := SetDmaRefs(w.t, f.id, 0).Free(f.id))
    case UserMap(req, mapOk) =>
      if w.removing.Some? then w else
      var (r, t) := w.t.Create(req, mapOk);
      if r.None? then w.(t := t) else w.(t := t, owners := w.owners + multiset{r.value})
    case UserMapped(id, raddr) =>
      if w.removing.Some? || id !in w.owners || id !in w.t.heap then w
      else w.(t := w.t.Put(id, w.t.heap[id].(raddr := raddr)))
    case UserMapFails(id) =>
      if w.removing.Some? || id !in w.owners || id !in w.t.heap then w
      else w.(t := w.t.Free(id), owners := w.owners - multiset{id})
    case RemoveStart(fd, va, len) =>
      if w.removing.Some? then w else
      var (r, t) := w.t.Remove(fd, va, len);
      if r.None? then w else w.(t := t, removing := r)
    case RemoveDone =>
      if w.removing.None? || w.removing.value !in w.t.heap then w
      else World(w.t.Free(w.removing.value), w.holds, w.owners[w.removing.value := 0], None)
    case RemoveFails =>
      if w.removing.None? || w.removing.value !in w.t.heap then w
      else w.(t := w.t.Restore(w.removing.value), removing := None)
    case MunmapFails =>
      if w.removing.None? || w.removing.value !in w.t.heap then w
      else w.(t := w.t.Add(w.removing.value), removing := None)
    case RemoveFd(fd) =>
      if w.removing.Some? then w else w.(t := w.t.RemoveFd(w.t.listed, fd))
  }

  // ---------------------------------------------------------------------------------------
  // What every run keeps
  // ---------------------------------------------------------------------------------------

  function Holders(holds: map<ArgKey, Id>, id: Id): set<ArgKey> {
    set k | k in holds && holds[k] == id
  }

  /** ctx_refs counts the holders, and what is held, taken or released is in its place. */
  ghost predicate PlaceOk(w: World, id: Id) {
    && (id in w.t.heap ==>
          id < w.t.next && w.t.heap[id].ctxRefs == |Holders(w.holds, id)| && w.t.heap[id].dmaRefs >= 0)
    && (id in w.t.listed ==> id in w.t.heap && !HeapFlags(w.t.heap[id].flags))
    && (id in w.t.freed ==> id !in w.t.heap && id < w.t.next)
    && (Holders(w.holds, id) != {} ==> id in w.t.listed)
    && (w.removing == Some(id) ==>
          && id in w.t.heap && id !in w.t.listed && !HeapFlags(w.t.heap[id].flags)
          && w.t.heap[id].ctxRefs == 0 && w.t.heap[id].dmaRefs == 0)
  }

  ghost predicate Placed(w: World) {
    Distinct(w.t.listed) && Distinct(w.t.freed) && forall id :: PlaceOk(w, id)
  }

  lemma PlacedCloses(w: World)
    requires Placed(w)
    ensures w.t.Closed()
  {
    forall i | 0 <= i < |w.t.listed| ensures w.t.listed[i] in w.t.heap {
      assert PlaceOk(w, w.t.listed[i]);
    }
  }

  lemma PutStays(w: World, id: Id, m: Mmap)
    requires Placed(w) && id in w.t.heap && m.ctxRefs == w.t.heap[id].ctxRefs && m.flags == w.t.heap[id].flags
    requires m.dmaRefs >= 0 && (w.removing == Some(id) ==> m.dmaRefs == 0)
    ensures Placed(w.(t := w.t.Put(id, m)))
  {
    var w' := w.(t := w.t.Put(id, m));
    forall x ensures PlaceOk(w', x) {
      assert PlaceOk(w, x);
    }
  }

  lemma ReleaseStays(w: World, id: Id)
    requires Placed(w) && id in w.t.heap && w.removing != Some(id) && w.t.heap[id].ctxRefs == 0
    ensures Placed(w.(t := w.t.Release(id)))
  {
    var w' := w.(t := w.t.Release(id));
    assert PlaceOk(w, id);
    WithoutDistinct(w.t.listed, id);
    forall x ensures PlaceOk(w', x) {
      assert PlaceOk(w, x);
      WithoutMembers(w.t.listed, id, x);
    }
  }

  lemma FreeStays(w: World, id: Id)
    requires Placed(w) && id in w.t.heap && w.removing != Some(id)
    ensures Placed(w.(t := w.t.Free(id)))
    ensures w.t.heap[id].ctxRefs != 0 ==> id in w.t.Free(id).heap && w.t.Free(id).listed == w.t.listed
  {
    var m := w.t.heap[id];
    assert PlaceOk(w, id);
    if !Stuck(m) {
      if m.refs == 1 && m.ctxRefs == 0 && m.dmaRefs == 0 {
        ReleaseStays(w, id);
      } else {
        PutStays(w, id, m.(refs := m.refs - 1));
      }
    }
  }

  lemma NewStays(w: World, m: Mmap)
    requires Placed(w) && m.ctxRefs == 0 && m.dmaRefs == 0
    ensures var w' := w.(t := w.t.Put(w.t.next, m).(next := w.t.next + 1));
      Placed(w') && w.t.next !in w.t.listed && w'.removing != Some(w.t.next)
  {
    var id := w.t.next;
    var w' := w.(t := w.t.Put(id, m).(next := id + 1));
    assert PlaceOk(w, id);
    forall x ensures PlaceOk(w', x) {
      assert PlaceOk(w, x);
    }
  }

  lemma AddStays(w: World, id: Id)
    requires Placed(w) && id in w.t.heap && id !in w.t.listed && w.removing != Some(id)
    ensures Placed(w.(t := w.t.Add(id)))
  {
    var w' := w.(t := w.t.Add(id));
    forall x ensures PlaceOk(w', x) {
      assert PlaceOk(w, x);
    }
  }

  lemma CreateStays(w: World, req: Request, mapOk: bool)
    requires Placed(w) && w.t.Closed()
    ensures var (r, t) := w.t.Create(req, mapOk);
      Placed(w.(t := t)) && (r.Some? ==> r.value in t.listed && r.value in t.heap)
  {
    var found := w.t.Find(req, true).0;
    if found.Found? {
      FirstFacts(w.t.heap, w.t.listed, m => Serves(m, req));
      assert PlaceOk(w, found.id);
      PutStays(w, found.id, w.t.heap[found.id].(refs := w.t.heap[found.id].refs + 1));
    } else {
      var id := w.t.next;
      var m := Mmap(req.fd, req.flags, req.va, req.len, 0, req.keep, if req.keep then 2 else 1, 0, 0);
      var w1 := w.(t := w.t.Put(id, m).(next := id + 1));
      NewStays(w, m);
      if HeapFlags(req.flags) || !mapOk {
        FreeStays(w1, id);
      } else {
        AddStays(w1, id);
      }
    }
  }

  lemma HoldersOfAdd(holds: map<ArgKey, Id>, key: ArgKey, id: Id, x: Id)
    requires key !in holds
    ensures Holders(holds[key := id], x) == Holders(holds, x) + if x == id then {key} else {}
    ensures |Holders(holds[key := id], x)| == |Holders(holds, x)| + if x == id then 1 else 0
  {
    assert Holders(holds[key := id], x) == Holders(holds, x) + if x == id then {key} else {};
  }

  lemma HoldStays(w: World, key: ArgKey, id: Id)
    requires Placed(w) && id in w.t.listed && id in w.t.heap && key !in w.holds
    ensures Placed(w.(t := AddCtxRef(w.t, id), holds := w.holds[key := id]))
  {
    var w' := w.(t := AddCtxRef(w.t, id), holds := w.holds[key := id]);
    forall x ensures PlaceOk(w', x) {
      assert PlaceOk(w, x) && PlaceOk(w, id);
      HoldersOfAdd(w.holds, key, id, x);
    }
  }

  lemma UnholdStays(w: World, key: ArgKey)
    requires Placed(w) && key in w.holds && w.holds[key] in w.t.heap
    ensures Placed(World(SubCtxRef(w.t, w.holds[key]), w.holds - {key}, w.owners, w.removing))
    ensures w.removing != Some(w.holds[key])
  {
    var id := w.holds[key];
    var w' := World(SubCtxRef(w.t, id), w.holds - {key}, w.owners, w.removing);
    assert key in Holders(w.holds, id) && PlaceOk(w, id);
    assert w.holds == (w.holds - {key})[key := id];
    forall x ensures PlaceOk(w', x) {
      assert PlaceOk(w, x);
      HoldersOfAdd(w.holds - {key}, key, id, x);
    }
  }

  /** A lowered handle count and a free. */
  lemma DmaDropStays(w: World, id: Id, n: nat)
    requires Placed(w) && id in w.t.listed && id in w.t.heap
    ensures Placed(w.(t := SetDmaRefs(w.t, id, n).Free(id)))
  {
    assert PlaceOk(w, id);
    PutStays(w, id, w.t.heap[id].(dmaRefs := n));
    FreeStays(w.(t := SetDmaRefs(w.t, id, n)), id);
  }

  lemma OwnersStay(w: World, owners: multiset<Id>)
    requires Placed(w)
    ensures Placed(w.(owners := owners))
  {
    forall x ensures PlaceOk(w.(owners := owners), x) {
      assert PlaceOk(w, x);
    }
  }

  lemma RemoveStartStays(w: World, fd: int, va: u64, len: u64)
    requires Placed(w) && w.t.Closed() && w.removing.None?
    ensures var (r, t) := w.t.Remove(fd, va, len);
      r.Some? ==> Placed(w.(t := t, removing := r)) && Holders(w.holds, r.value) == {}
  {
    var (r, t) := w.t.Remove(fd, va, len);
    if r.Some? {
      FirstFacts(w.t.heap, w.t.listed, m => Removable(m, fd, va, len));
      var id := r.value;
      var w' := w.(t := t, removing := r);
      assert PlaceOk(w, id);
      WithoutDistinct(w.t.listed, id);
      forall x ensures PlaceOk(w', x) {
        assert PlaceOk(w, x);
        WithoutMembers(w.t.listed, id, x);
      }
    }
  }

  lemma RemoveEndStays(w: World, s: Step)
    requires Placed(w) && w.t.Closed() && w.removing.Some? && w.removing.value in w.t.heap
    requires s.RemoveDone? || s.RemoveFails? || s.MunmapFails?
    ensures Placed(Next(w, s))
  {
    var id := w.removing.value;
    var w1 := w.(removing := None);
    assert PlaceOk(w, id);
    forall x ensures PlaceOk(w1, x) {
      assert PlaceOk(w, x);
    }
    if s.RemoveDone? {
      FreeStays(w1, id);
      OwnersStay(w1.(t := w1.t.Free(id)), w.owners[id := 0]);
    } else if s.RemoveFails? {
      var m := w.t.heap[id];
      PutStays(w1, id, m.(refs := m.refs + KeepRef(m)));
      AddStays(w1.(t := w.t.Put(id, m.(refs := m.refs + KeepRef(m)))), id);
    } else {
      AddStays(w1, id);
    }
  }

  lemma {:induction false} RemoveFdStays(w: World, ids: seq<Id>, fd: int)
    requires Placed(w) && w.removing.None?
    ensures Placed(w.(t := w.t.RemoveFd(ids, fd)))
    decreases |ids|
  {
    if ids != [] {
      if ids[0] in w.t.heap {
        var m := w.t.heap[ids[0]];
        var w1 := w.(t := w.t.Unkeep(ids[0], fd));
        assert PlaceOk(w, ids[0]);
        if m.fd == fd && m.keep {
          PutStays(w, ids[0], m.(keep := false));
          FreeStays(w.(t := w.t.Put(ids[0], m.(keep := false))), ids[0]);
        }
        RemoveFdStays(w1, ids[1..], fd);
      } else {
        RemoveFdStays(w, ids[1..], fd);
      }
    }
  }

  lemma GetStays(w: World, s: Step)
    requires Placed(w) && w.t.Closed() && (s.GetBuffer? || s.GetHandle?)
    ensures Placed(Next(w, s))
  {
    match s
    case GetBuffer(key, req, mapOk) =>
      if key !in w.holds {
        CreateStays(w, req, mapOk);
        var (r, t) := w.t.Create(req, mapOk);
        if r.Some? {
          HoldStays(w.(t := t), key, r.value);
        }
      }
    case GetHandle(req, mapOk) =>
      CreateStays(w, req.(keep := false), mapOk);
      var (r, t) := w.t.Create(req.(keep := false), mapOk);
      if r.Some? {
        assert PlaceOk(w.(t := t), r.value);
        PutStays(w.(t := t), r.value, t.heap[r.value].(dmaRefs := t.heap[r.value].dmaRefs + 1));
      }
  }

  lemma UserStays(w: World, s: Step)
    requires Placed(w) && w.t.Closed() && (s.UserMap? || s.UserMapped? || s.UserMapFails?)
    ensures Placed(Next(w, s))
  {
    match s
    case UserMap(req, mapOk) =>
      if w.removing.None? {
        CreateStays(w, req, mapOk);
        var (r, t) := w.t.Create(req, mapOk);
        if r.Some? {
          OwnersStay(w.(t := t), w.owners + multiset{r.value});
        }
      }
    case UserMapped(id, raddr) =>
      if w.removing.None? && id in w.owners && id in w.t.heap {
        assert PlaceOk(w, id);
        PutStays(w, id, w.t.heap[id].(raddr := raddr));
      }
    case UserMapFails(id) =>
      if w.removing.None? && id in w.owners && id in w.t.heap {
        FreeStays(w, id);
        OwnersStay(w.(t := w.t.Free(id)), w.owners - multiset{id});
      }
  }

  lemma DropsStay(w: World, s: Step)
    requires Placed(w) && w.t.Closed() && (s.UndoHandle? || s.DropBuffer? || s.DspReleases?)
    ensures Placed(Next(w, s))
  {
    match s
    case UndoHandle(id) =>
      if id in w.t.listed && id in w.t.heap && w.t.heap[id].dmaRefs != 0 {
        assert PlaceOk(w, id);
        DmaDropStays(w, id, w.t.heap[id].dmaRefs - 1);
      }
    case DropBuffer(key) =>
      if key in w.holds && w.holds[key] in w.t.heap {
        UnholdStays(w, key);
        FreeStays(World(SubCtxRef(w.t, w.holds[key]), w.holds - {key}, w.owners, w.removing), w.holds[key]);
      }
    case DspReleases(fd) =>
      var req := Request(fd, 0, 0, 0, false);
      var f := w.t.Find(req, false).0;
      if f.Found? {
        FirstFacts(w.t.heap, w.t.listed, m => Serves(m, req));
        if w.t.heap[f.id].dmaRefs != 0 {
          DmaDropStays(w, f.id, 0);
        }
      }
  }

  /** Every step, also a failed munmap. */
  lemma NextStays(w: World, s: Step)
    requires Placed(w) && w.t.Closed()
    ensures Placed(Next(w, s))
  {
    if s.GetBuffer? || s.GetHandle? {
      GetStays(w, s);
    } else if s.UserMap? || s.UserMapped? || s.UserMapFails? {
      UserStays(w, s);
    } else if s.UndoHandle? || s.DropBuffer? || s.DspReleases? {
      DropsStay(w, s);
    } else if s.RemoveStart? {
      if w.removing.None? {
        RemoveStartStays(w, s.fd, s.va, s.len);
      }
    } else if s.RemoveFd? {
      if w.removing.None? {
        RemoveFdStays(w, w.t.listed, s.fd);
      }
    } else if w.removing.Some? && w.removing.value in w.t.heap {
      RemoveEndStays(w, s);
    }
  }

  // ---------------------------------------------------------------------------------------
  // The accounting of references
  // ---------------------------------------------------------------------------------------

  /** References that nobody accounts for. */
  function Slack(w: World, id: Id): int
    requires id in w.t.heap
  {
    var m := w.t.heap[id];
    m.refs - (m.ctxRefs + m.dmaRefs + KeepRef(m) + w.owners[id])
  }

  /** The counters that others account for never exceed the references of a listed map. */
  ghost predicate ListedOk(w: World, id: Id) {
    id in w.t.heap && w.t.heap[id].refs >= 1 && Slack(w, id) >= 0
  }

  /** A map that a pending unmap has taken. */
  ghost predicate TakenOk(w: World, id: Id) {
    && id in w.t.heap && w.owners[id] <= w.t.heap[id].refs
    && (w.t.heap[id].refs == 1 || (w.t.heap[id].refs == 0 && w.t.heap[id].keep))
  }

  ghost predicate ItemOk(w: World, id: Id) {
    && PlaceOk(w, id)
    && (id in w.t.heap ==> w.t.heap[id].refs < INT_MAX)
    && (id in w.t.listed ==> ListedOk(w, id))
    && (id in w.owners ==> id in w.t.listed || w.removing == Some(id))
    && (w.removing == Some(id) ==> TakenOk(w, id))
  }

  ghost predicate Inv(w: World) {
    Distinct(w.t.listed) && Distinct(w.t.freed) && forall id :: ItemOk(w, id)
  }

  lemma InvPlaces(w: World)
    requires Inv(w)
    ensures Placed(w)
  {
    forall id ensures PlaceOk(w, id) {
      assert ItemOk(w, id);
    }
  }

  // ---------------------------------------------------------------------------------------
  // Primitive changes
  // ---------------------------------------------------------------------------------------

  /** A counter update that leaves its own record right keeps the invariant. */
  lemma PutKeeps(w: World, id: Id, m: Mmap)
    requires Inv(w) && id in w.t.listed && ItemOk(w.(t := w.t.Put(id, m)), id)
    ensures Inv(w.(t := w.t.Put(id, m)))
  {
    var w' := w.(t := w.t.Put(id, m));
    forall x ensures ItemOk(w', x) {
      assert ItemOk(w, x) && ItemOk(w, id);
    }
  }

  lemma ReleaseKeeps(w: World, id: Id)
    requires Inv(w) && id in w.t.heap && w.removing != Some(id)
    requires w.t.heap[id].ctxRefs == 0 && w.owners[id] == 0
    ensures Inv(w.(t := w.t.Release(id)))
  {
    var w' := w.(t := w.t.Release(id));
    assert ItemOk(w, id);
    WithoutDistinct(w.t.listed, id);
    forall x ensures ItemOk(w', x) {
      assert ItemOk(w, x);
      WithoutMembers(w.t.listed, id, x);
    }
  }

  /** Dropping a reference that nobody accounts for; if it was the last, the map is released by this call. */
  lemma FreeKeeps(w: World, id: Id)
    requires Inv(w) && id in w.t.listed && id in w.t.heap && Slack(w, id) > 0
    ensures Inv(w.(t := w.t.Free(id)))
    ensures w.t.heap[id].refs == 1 <==> id in w.t.Free(id).freed
    ensures w.t.heap[id].refs > 1 ==> id in w.t.Free(id).listed
  {
    assert ItemOk(w, id);
    var m := w.t.heap[id];
    if m.refs > 1 {
      PutKeeps(w, id, m.(refs := m.refs - 1));
    } else {
      ReleaseKeeps(w, id);
    }
  }

  /** A new record that is not listed yet. */
  lemma NewKeeps(w: World, m: Mmap)
    requires Inv(w) && m.ctxRefs == 0 && m.dmaRefs == 0 && m.refs < INT_MAX
    ensures var w' := w.(t := w.t.Put(w.t.next, m).(next := w.t.next + 1));
      Inv(w') && w.t.next !in w.t.listed && w'.removing != Some(w.t.next) && w'.owners[w.t.next] == 0
  {
    var id := w.t.next;
    var w' := w.(t := w.t.Put(id, m).(next := id + 1));
    assert ItemOk(w, id);
    forall x ensures ItemOk(w', x) {
      assert ItemOk(w, x);
    }
  }

  lemma AddKeeps(w: World, id: Id)
    requires Inv(w) && id !in w.t.listed && w.removing != Some(id) && ListedOk(w, id)
    ensures Inv(w.(t := w.t.Add(id)))
  {
    var w' := w.(t := w.t.Add(id));
    forall x ensures ItemOk(w', x) {
      assert ItemOk(w, x);
    }
  }

  lemma MakeKeeps(w: World, req: Request, mapOk: bool)
    requires Inv(w) && w.t.Closed() && w.t.Find(req, true).0.Missed?
    ensures var (r, t) := w.t.Create(req, mapOk);
      Inv(w.(t := t)) && (r.Some? ==> r.value in t.listed && r.value in t.heap && Slack(w.(t := t), r.value) > 0)
  {
    var id := w.t.next;
    var m := Mmap(req.fd, req.flags, req.va, req.len, 0, req.keep, if req.keep then 2 else 1, 0, 0);
    var w1 := w.(t := w.t.Put(id, m).(next := id + 1));
    NewKeeps(w, m);
    if !HeapFlags(req.flags) {
      if mapOk {
        AddKeeps(w1, id);
      } else if req.keep {
        NewKeeps(w, m.(refs := 1));
        assert w1.t.Free(id).heap == w.t.Put(id, m.(refs := 1)).heap;
      } else {
        ReleaseKeeps(w1, id);
      }
    }
  }

  /** Create returns a listed map with one reference that nobody accounts for yet. */
  lemma CreateKeeps(w: World, req: Request, mapOk: bool)
    requires Inv(w) && w.t.Closed()
    ensures var (r, t) := w.t.Create(req, mapOk);
      Inv(w.(t := t)) && (r.Some? ==> r.value in t.listed && r.value in t.heap && Slack(w.(t := t), r.value) > 0)
  {
    var found := w.t.Find(req, true).0;
    if found.Found? {
      FirstFacts(w.t.heap, w.t.listed, m => Serves(m, req));
      assert ItemOk(w, found.id);
      PutKeeps(w, found.id, w.t.heap[found.id].(refs := w.t.heap[found.id].refs + 1));
    } else {
      MakeKeeps(w, req, mapOk);
    }
  }

  // ---------------------------------------------------------------------------------------
  // The steps
  // ---------------------------------------------------------------------------------------

  lemma HoldKeeps(w: World, key: ArgKey, id: Id)
    requires Inv(w) && id in w.t.listed && id in w.t.heap && key !in w.holds && Slack(w, id) > 0
    ensures Inv(w.(t := AddCtxRef(w.t, id), holds := w.holds[key := id]))
  {
    var w' := w.(t := AddCtxRef(w.t, id), holds := w.holds[key := id]);
    forall x ensures ItemOk(w', x) {
      assert ItemOk(w, x) && ItemOk(w, id);
      HoldersOfAdd(w.holds, key, id, x);
    }
  }

  lemma UnholdKeeps(w: World, key: ArgKey)
    requires Inv(w) && key in w.holds && w.holds[key] in w.t.heap
    ensures var id, w' := w.holds[key], World(SubCtxRef(w.t, w.holds[key]), w.holds - {key}, w.owners, w.removing);
      Inv(w') && id in w'.t.listed && Slack(w', id) > 0
  {
    var id := w.holds[key];
    var w' := World(SubCtxRef(w.t, id), w.holds - {key}, w.owners, w.removing);
    assert key in Holders(w.holds, id) && ItemOk(w, id);
    assert w.holds == (w.holds - {key})[key := id];
    forall x ensures ItemOk(w', x) {
      assert ItemOk(w, x);
      HoldersOfAdd(w.holds - {key}, key, id, x);
    }
    assert ItemOk(w', id);
  }

  /** Lowering dma_handle_refs leaves at least one reference that nobody accounts for. */
  lemma DmaDropKeeps(w: World, id: Id, n: nat)
    requires Inv(w) && id in w.t.listed && id in w.t.heap && n < w.t.heap[id].dmaRefs
    ensures Inv(w.(t := SetDmaRefs(w.t, id, n).Free(id)))
  {
    assert ItemOk(w, id);
    PutKeeps(w, id, w.t.heap[id].(dmaRefs := n));
    FreeKeeps(w.(t := SetDmaRefs(w.t, id, n)), id);
  }

  lemma OwnersKeep(w: World, owners: multiset<Id>)
    requires Inv(w) && owners <= w.owners
    ensures Inv(w.(owners := owners))
  {
    var w' := w.(owners := owners);
    forall x ensures ItemOk(w', x) {
      assert ItemOk(w, x) && owners[x] <= w.owners[x];
    }
  }

  lemma OwnKeeps(w: World, id: Id)
    requires Inv(w) && id in w.t.listed && id in w.t.heap && Slack(w, id) > 0
    ensures Inv(w.(owners := w.owners + multiset{id}))
  {
    var w' := w.(owners := w.owners + multiset{id});
    forall x ensures ItemOk(w', x) {
      assert ItemOk(w, x);
    }
  }

  /** An unmap takes only a map that no context holds. */
  lemma RemoveStartKeeps(w: World, fd: int, va: u64, len: u64)
    requires Inv(w) && w.t.Closed() && w.removing.None?
    ensures var (r, t) := w.t.Remove(fd, va, len);
      r.Some? ==> Inv(w.(t := t, removing := r)) && Holders(w.holds, r.value) == {}
  {
    var (r, t) := w.t.Remove(fd, va, len);
    if r.Some? {
      FirstFacts(w.t.heap, w.t.listed, m => Removable(m, fd, va, len));
      var id := r.value;
      var w' := w.(t := t, removing := r);
      assert ItemOk(w, id);
      WithoutDistinct(w.t.listed, id);
      forall x ensures ItemOk(w', x) {
        assert ItemOk(w, x);
        WithoutMembers(w.t.listed, id, x);
      }
    }
  }

  lemma RemoveDoneKeeps(w: World)
    requires Inv(w) && w.removing.Some? && w.removing.value in w.t.heap
    ensures Inv(World(w.t.Free(w.removing.value), w.holds, w.owners[w.removing.value := 0], None))
  {
    var id := w.removing.value;
    var w1 := w.(owners := w.owners[id := 0], removing := None);
    assert ItemOk(w, id);
    forall x ensures ItemOk(w1, x) {
      assert ItemOk(w, x);
    }
    if w.t.heap[id].refs == 1 {
      ReleaseKeeps(w1, id);
    }
  }

  lemma RemoveFailsKeeps(w: World)
    requires Inv(w) && w.removing.Some? && w.removing.value in w.t.heap
    ensures Inv(w.(t := w.t.Restore(w.removing.value), removing := None))
  {
    var id := w.removing.value;
    var w' := w.(t := w.t.Restore(id), removing := None);
    assert ItemOk(w, id);
    forall x ensures ItemOk(w', x) {
      assert ItemOk(w, x);
    }
  }

  lemma UnkeepKeeps(w: World, id: Id, fd: int)
    requires Inv(w) && id in w.t.listed && id in w.t.heap
    ensures Inv(w.(t := w.t.Unkeep(id, fd)))
    ensures forall x :: x != id ==> (x in w.t.Unkeep(id, fd).listed <==> x in w.t.listed)
  {
    var m := w.t.heap[id];
    forall x ensures x in Without(w.t.listed, id) <==> x in w.t.listed && x != id {
      WithoutMembers(w.t.listed, id, x);
    }
    if m.fd == fd && m.keep {
      assert ItemOk(w, id);
      PutKeeps(w, id, m.(keep := false));
      FreeKeeps(w.(t := w.t.Put(id, m.(keep := false))), id);
    }
  }

  lemma {:induction false} RemoveFdKeeps(w: World, ids: seq<Id>, fd: int)
    requires Inv(w) && Distinct(ids) && forall i :: 0 <= i < |ids| ==> ids[i] in w.t.listed
    ensures Inv(w.(t := w.t.RemoveFd(ids, fd)))
    decreases |ids|
  {
    if ids != [] {
      assert ItemOk(w, ids[0]);
      UnkeepKeeps(w, ids[0], fd);
      RemoveFdKeeps(w.(t := w.t.Unkeep(ids[0], fd)), ids[1..], fd);
    }
  }

  lemma GetBufferKeeps(w: World, key: ArgKey, req: Request, mapOk: bool)
    requires Inv(w) && w.t.Closed()
    ensures Inv(Next(w, GetBuffer(key, req, mapOk)))
  {
    if key !in w.holds {
      CreateKeeps(w, req, mapOk);
      var (r, t) := w.t.Create(req, mapOk);
      if r.Some? {
        HoldKeeps(w.(t := t), key, r.value);
      }
    }
  }

  lemma GetHandleKeeps(w: World, req: Request, mapOk: bool)
    requires Inv(w) && w.t.Closed()
    ensures Inv(Next(w, GetHandle(req, mapOk)))
  {
    CreateKeeps(w, req.(keep := false), mapOk);
    var (r, t) := w.t.Create(req.(keep := false), mapOk);
    if r.Some? {
      assert ItemOk(w.(t := t), r.value);
      PutKeeps(w.(t := t), r.value, t.heap[r.value].(dmaRefs := t.heap[r.value].dmaRefs + 1));
    }
  }

  lemma UserMapKeeps(w: World, req: Request, mapOk: bool)
    requires Inv(w) && w.t.Closed()
    ensures Inv(Next(w, UserMap(req, mapOk)))
  {
    if w.removing.None? {
      CreateKeeps(w, req, mapOk);
      var (r, t) := w.t.Create(req, mapOk);
      if r.Some? {
        OwnKeeps(w.(t := t), r.value);
      }
    }
  }

  lemma UserMapFailsKeeps(w: World, id: Id)
    requires Inv(w) && w.t.Closed()
    ensures Inv(Next(w, UserMapFails(id)))
  {
    if w.removing.None? && id in w.owners && id in w.t.heap {
      assert ItemOk(w, id);
      OwnersKeep(w, w.owners - multiset{id});
      FreeKeeps(w.(owners := w.owners - multiset{id}), id);
    }
  }

  lemma DspReleasesKeeps(w: World, fd: int)
    requires Inv(w) && w.t.Closed()
    ensures Inv(Next(w, DspReleases(fd)))
  {
    var req := Request(fd, 0, 0, 0, false);
    var f := w.t.Find(req, false).0;
    if f.Found? {
      FirstFacts(w.t.heap, w.t.listed, m => Serves(m, req));
      assert ItemOk(w, f.id);
      if w.t.heap[f.id].dmaRefs != 0 {
        DmaDropKeeps(w, f.id, 0);
      }
    }
  }

  /** The step is not a munmap that fails on a KEEP_MAP map. */
  predicate Spares(w: World, s: Step) {
    s.MunmapFails? && w.removing.Some? && w.removing.value in w.t.heap ==> !w.t.heap[w.removing.value].keep
  }

  /** Every step keeps the accounting, but for a munmap that fails on a KEEP_MAP map. */
  lemma NextKeeps(w: World, s: Step)
    requires Inv(w) && w.t.Closed() && Spares(w, s)
    ensures Inv(Next(w, s))
  {
    match s
    case GetBuffer(key, req, mapOk) => GetBufferKeeps(w, key, req, mapOk);
    case GetHandle(req, mapOk) => GetHandleKeeps(w, req, mapOk);
    case UndoHandle(id) =>
      if id in w.t.listed && id in w.t.heap && w.t.heap[id].dmaRefs != 0 {
        assert ItemOk(w, id);
        DmaDropKeeps(w, id, w.t.heap[id].dmaRefs - 1);
      }
    case DropBuffer(key) =>
      if key in w.holds && w.holds[key] in w.t.heap {
        UnholdKeeps(w, key);
        FreeKeeps(World(SubCtxRef(w.t, w.holds[key]), w.holds - {key}, w.owners, w.removing), w.holds[key]);
      }
    case DspReleases(fd) => DspReleasesKeeps(w, fd);
    case UserMap(req, mapOk) => UserMapKeeps(w, req, mapOk);
    case UserMapped(id, raddr) =>
      if w.removing.None? && id in w.owners && id in w.t.heap {
        assert ItemOk(w, id);
        PutKeeps(w, id, w.t.heap[id].(raddr := raddr));
      }
    case UserMapFails(id) => UserMapFailsKeeps(w, id);
    case RemoveStart(fd, va, len) =>
      if w.removing.None? {
        RemoveStartKeeps(w, fd, va, len);
      }
    case RemoveDone =>
      if w.removing.Some? && w.removing.value in w.t.heap {
        RemoveDoneKeeps(w);
      }
    case RemoveFails =>
      if w.removing.Some? && w.removing.value in w.t.heap {
        RemoveFailsKeeps(w);
      }
    case MunmapFails =>
      if w.removing.Some? && w.removing.value in w.t.heap {
        RemoveFailsKeeps(w);
        var id := w.removing.value;
        assert w.t.heap == w.t.heap[id := w.t.heap[id].(refs := w.t.heap[id].refs + KeepRef(w.t.heap[id]))];
      }
    case RemoveFd(fd) =>
      if w.removing.None? {
        RemoveFdKeeps(w, w.t.listed, fd);
      }
  }

  // ---------------------------------------------------------------------------------------
  // What a request gets and what undoes it
  // ---------------------------------------------------------------------------------------

  /** A request gets a map: a listed one covers it and has references left, or a new one can be made. */
  ghost predicate GetsMap(t: Table, req: Request, mapOk: bool)
    requires t.Closed()
  {
    t.Find(req, true).0.Found? || (mapOk && !HeapFlags(req.flags))
  }

  lemma NextIsNew(w: World)
    requires Placed(w)
    ensures w.t.next !in w.t.heap && w.t.next !in w.t.listed && w.t.next !in w.t.freed
  {
    assert PlaceOk(w, w.t.next);
  }

  lemma SharedIsListed(w: World, req: Request)
    requires Inv(w) && w.t.Closed() && w.t.Find(req, true).0.Found?
    ensures var id := w.t.Find(req, true).0.id;
      && id in w.t.listed && id in w.t.heap && w.t.heap[id].refs >= 1 && !HeapFlags(w.t.heap[id].flags)
      && w.t.heap[id].ctxRefs >= 0 && w.t.heap[id].dmaRefs >= 0 && CoversRequest(w.t.heap[id], req)
  {
    FindTakes(w.t, req, true);
    assert ItemOk(w, w.t.Find(req, true).0.id);
  }

  /** What the table is after a request and the free that undoes it. */
  ghost predicate Undone(t: Table, req: Request, shared: bool, t': Table) {
    if shared then t' == t
    else if req.keep then
      t' == Table(t.heap[t.next := NewMap(req).(refs := 1)], [t.next] + t.listed, t.next + 1, t.freed)
    else t'.heap == t.heap && t'.listed == t.listed && t'.freed == t.freed + [t.next]
  }

  /** The map a request got: one that covers it with a reference more, or a new one that records it. */
  ghost predicate Got(t: Table, req: Request, m: Mmap, id: Id)
    requires t.Closed()
  {
    if t.Find(req, true).0.Found? then
      && id == t.Find(req, true).0.id && id in t.heap && CoversRequest(t.heap[id], req)
      && m == t.heap[id].(refs := t.heap[id].refs + 1)
    else id == t.next && m == NewMap(req)
  }

  /**
    A buffer argument with a descriptor gets a map exactly if there is one for it or one can be made;
    the context then holds it, with a reference and a context reference more.
   */
  lemma BufferGets(w: World, key: ArgKey, req: Request, mapOk: bool)
    requires Inv(w) && w.t.Closed() && key !in w.holds
    ensures var w1 := Next(w, GetBuffer(key, req, mapOk));
      && w1.t.Closed() && (key in w1.holds <==> GetsMap(w.t, req, mapOk))
      && (key in w1.holds ==>
            && var id := w1.holds[key];
            && w1.holds == w.holds[key := id] && id in w1.t.heap && id in w1.t.listed
            && Got(w.t, req, w1.t.heap[id].(ctxRefs := w1.t.heap[id].ctxRefs - 1), id))
  {
    GetBufferKeeps(w, key, req, mapOk);
    InvPlaces(w);
    NextIsNew(w);
    CreateMakes(w.t, req, mapOk);
    var w1 := Next(w, GetBuffer(key, req, mapOk));
    InvPlaces(w1);
    PlacedCloses(w1);
    if w.t.Find(req, true).0.Found? {
      SharedIsListed(w, req);
      FindTakes(w.t, req, true);
    }
  }

  /** Dropping the argument undoes that: a shared map is as it was, and a new one is gone but for KEEP_MAP. */
  lemma BufferRoundTrip(w: World, key: ArgKey, req: Request, mapOk: bool)
    requires Inv(w) && w.t.Closed() && key !in w.holds && GetsMap(w.t, req, mapOk)
    requires Next(w, GetBuffer(key, req, mapOk)).t.Closed()
    ensures var w2 := Next(Next(w, GetBuffer(key, req, mapOk)), DropBuffer(key));
      w2.holds == w.holds && Undone(w.t, req, w.t.Find(req, true).0.Found?, w2.t)
  {
    InvPlaces(w);
    NextIsNew(w);
    CreateMakes(w.t, req, mapOk);
    assert Next(w, GetBuffer(key, req, mapOk)).holds - {key} == w.holds;
    if w.t.Find(req, true).0.Found? {
      SharedUndone(w, req);
    } else {
      MadeUndone(w.t, req);
    }
  }

  lemma SharedUndone(w: World, req: Request)
    requires Inv(w) && w.t.Closed() && w.t.Find(req, true).0.Found?
    ensures var (f, t) := w.t.Find(req, true);
      && f.id in t.heap && t.Free(f.id) == w.t && DropOne(AddCtxRef(t, f.id), f.id) == w.t
      && SetDmaRefs(SetDmaRefs(t, f.id, t.heap[f.id].dmaRefs + 1), f.id, t.heap[f.id].dmaRefs).Free(f.id) == w.t
  {
    SharedIsListed(w, req);
    var (f, t) := w.t.Find(req, true);
    FindTakes(w.t, req, true);
    assert t.Free(f.id).heap == w.t.heap;
    assert SubCtxRef(AddCtxRef(t, f.id), f.id) == t;
    assert SetDmaRefs(SetDmaRefs(t, f.id, t.heap[f.id].dmaRefs + 1), f.id, t.heap[f.id].dmaRefs) == t;
  }

  lemma MadeUndone(t: Table, req: Request)
    requires t.next !in t.heap && t.next !in t.listed && !HeapFlags(req.flags)
    ensures var made := Table(t.heap[t.next := NewMap(req)], [t.next] + t.listed, t.next + 1, t.freed);
      && Undone(t, req, false, made.Free(t.next))
      && DropOne(AddCtxRef(made, t.next), t.next) == made.Free(t.next)
      && SetDmaRefs(SetDmaRefs(made, t.next, 1), t.next, 0).Free(t.next) == made.Free(t.next)
  {
    var id := t.next;
    var made := Table(t.heap[id := NewMap(req)], [id] + t.listed, id + 1, t.freed);
    WithoutAbsent(t.listed, id);
    assert Without([id] + t.listed, id) == t.listed;
    assert made.heap - {id} == t.heap;
    assert SubCtxRef(AddCtxRef(made, id), id) == made;
    assert SetDmaRefs(SetDmaRefs(made, id, 1), id, 0) == made;
    assert made.heap[id := NewMap(req).(refs := 1)] == t.heap[id := NewMap(req).(refs := 1)];
  }

  /** A handle argument gets a map likewise, without KEEP_MAP, and the map one handle reference more. */
  lemma HandleGets(w: World, req: Request, mapOk: bool) returns (id: Id)
    requires Inv(w) && w.t.Closed() && GetsMap(w.t, req.(keep := false), mapOk)
    ensures var w1 := Next(w, GetHandle(req, mapOk));
      && w1.holds == w.holds && id in w1.t.heap && id in w1.t.listed && w1.t.Closed()
      && Got(w.t, req.(keep := false), w1.t.heap[id].(dmaRefs := w1.t.heap[id].dmaRefs - 1), id)
  {
    InvPlaces(w);
    NextIsNew(w);
    CreateMakes(w.t, req.(keep := false), mapOk);
    id := w.t.Create(req.(keep := false), mapOk).0.value;
    GetHandleKeeps(w, req, mapOk);
    InvPlaces(Next(w, GetHandle(req, mapOk)));
    PlacedCloses(Next(w, GetHandle(req, mapOk)));
    if w.t.Find(req.(keep := false), true).0.Found? {
      SharedIsListed(w, req.(keep := false));
      FindTakes(w.t, req.(keep := false), true);
    }
  }

  lemma SharedHandleUndone(w: World, req: Request, mapOk: bool, id: Id)
    requires Inv(w) && w.t.Closed() && w.t.Find(req.(keep := false), true).0 == Found(id)
    requires Next(w, GetHandle(req, mapOk)).t.Closed()
    ensures Next(Next(w, GetHandle(req, mapOk)), UndoHandle(id)).t == w.t
  {
    SharedIsListed(w, req.(keep := false));
    SharedUndone(w, req.(keep := false));
  }

  lemma MadeHandleUndone(w: World, req: Request, mapOk: bool)
    requires Inv(w) && w.t.Closed() && w.t.Find(req.(keep := false), true).0.Missed? && mapOk && !HeapFlags(req.flags)
    requires Next(w, GetHandle(req, mapOk)).t.Closed()
    ensures Undone(w.t, req.(keep := false), false, Next(Next(w, GetHandle(req, mapOk)), UndoHandle(w.t.next)).t)
  {
    InvPlaces(w);
    NextIsNew(w);
    MadeUndone(w.t, req.(keep := false));
  }

  /** When a later handle fails the earlier ones are given back: each as it was, or gone if it was new. */
  lemma HandleRoundTrip(w: World, req: Request, mapOk: bool, id: Id)
    requires Inv(w) && w.t.Closed() && w.t.Create(req.(keep := false), mapOk).0 == Some(id)
    requires Next(w, GetHandle(req, mapOk)).t.Closed()
    ensures Undone(w.t, req.(keep := false), w.t.Find(req.(keep := false), true).0.Found?,
                   Next(Next(w, GetHandle(req, mapOk)), UndoHandle(id)).t)
  {
    if w.t.Find(req.(keep := false), true).0.Found? {
      SharedHandleUndone(w, req, mapOk, id);
    } else {
      MadeHandleUndone(w, req, mapOk);
    }
  }

  /**
    A descriptor in the DSP's list ends all handle references of the first map made for it as a handle,
    but only one reference goes with them: the map is released if and only if that was its last.
   */
  lemma DspReleasesIff(w: World, fd: int, id: Id)
    requires Inv(w) && w.t.Closed() && id in w.t.heap && w.t.heap[id].dmaRefs > 0
    requires IsFirst(w.t, id, m => CoversRequest(m, Request(fd, 0, 0, 0, false)))
    ensures var w' := Next(w, DspReleases(fd));
      && SameBut(w.t, w'.t, id) && (id in w'.t.freed <==> w.t.heap[id].refs == 1)
      && (w.t.heap[id].refs == 1 ==> id !in w'.t.heap && w.t.heap[id].dmaRefs == 1)
      && (w.t.heap[id].refs > 1 ==>
            id in w'.t.heap && w'.t.heap[id] == w.t.heap[id].(dmaRefs := 0, refs := w.t.heap[id].refs - 1))
  {
    var req := Request(fd, 0, 0, 0, false);
    assert ItemOk(w, id);
    FirstIsFound(w.t, id, req);
    FreeDrops(SetDmaRefs(w.t, id, 0), id);
  }

  lemma FirstIsFound(t: Table, id: Id, req: Request)
    requires t.Closed() && !HeapFlags(req.flags) && req.va + req.len < WORD
    requires IsFirst(t, id, m => CoversRequest(m, req))
    ensures t.Find(req, false).0 == Found(id)
  {
    FindTakes(t, req, false);
    var k :| 0 <= k < |t.listed| && t.listed[k] == id && id in t.heap && CoversRequest(t.heap[id], req)
             && forall j :: 0 <= j < k && t.listed[j] in t.heap ==> !CoversRequest(t.heap[t.listed[j]], req);
    var x := t.Find(req, false).0.id;
    var n :| 0 <= n < |t.listed| && t.listed[n] == x && x in t.heap && CoversRequest(t.heap[x], req)
             && forall j :: 0 <= j < n && t.listed[j] in t.heap ==> !CoversRequest(t.heap[t.listed[j]], req);
    assert n == k;
  }

  /** Two uses of one descriptor as a handle, and the end of both: one reference stays behind. */
  lemma TwoHandlesStrandReference(fd: int) returns (w: World)
    requires fd >= 0
    ensures var req := Request(fd, 0, 0, 0, false);
      && Reaches(EMPTY, [GetHandle(req, true), GetHandle(req, true), DspReleases(fd), DspReleases(fd)], w)
      && w.t.listed == [0] && 0 in w.t.heap && w.t.heap[0] == NewMap(req) && w.t.heap[0].refs == 1
      && w.t.heap[0].dmaRefs == 0 && w.owners == multiset{} && w.holds == map[]
  {
    var req := Request(fd, 0, 0, 0, false);
    var w1 := Next(EMPTY, GetHandle(req, true));
    assert w1.t == HandleTable(req, 1, 1);
    var w2 := Next(w1, GetHandle(req, true));
    assert w2.t.heap == HandleTable(req, 2, 2).heap;
    w := TwoReleases(w2, fd);
    var steps := [GetHandle(req, true), GetHandle(req, true), DspReleases(fd), DspReleases(fd)];
    assert steps[1..] == [GetHandle(req, true), DspReleases(fd), DspReleases(fd)];
    assert steps[1..][1..] == [DspReleases(fd), DspReleases(fd)];
  }

  function HandleTable(req: Request, refs: int, dmaRefs: int): Table {
    Table(map[0 := NewMap(req).(refs := refs, dmaRefs := dmaRefs)], [0], 1, [])
  }

  lemma TwoReleases(w2: World, fd: int) returns (w: World)
    requires w2 == World(HandleTable(Request(fd, 0, 0, 0, false), 2, 2), map[], multiset{}, None)
    ensures w == World(HandleTable(Request(fd, 0, 0, 0, false), 1, 0), map[], multiset{}, None)
    ensures Reaches(w2, [DspReleases(fd), DspReleases(fd)], w)
  {
    w := Next(w2, DspReleases(fd));
    assert w.t.heap == HandleTable(Request(fd, 0, 0, 0, false), 1, 0).heap;
    assert Next(w, DspReleases(fd)) == w;
    assert [DspReleases(fd), DspReleases(fd)][1..] == [DspReleases(fd)] && [DspReleases(fd)][1..] == [];
    assert Reaches(w, [DspReleases(fd)], w);
  }

  /** A map request owns the map it gets. */
  lemma UserMapGets(w: World, req: Request, mapOk: bool)
    requires Inv(w) && w.t.Closed() && w.removing.None? && GetsMap(w.t, req, mapOk)
    ensures w.t.Create(req, mapOk).0.Some?
    ensures var id, w1 := w.t.Create(req, mapOk).0.value, Next(w, UserMap(req, mapOk));
      && w1.t.Closed() && w1.owners == w.owners + multiset{id} && w1.holds == w.holds
      && id in w1.t.heap && id in w1.t.listed && Got(w.t, req, w1.t.heap[id], id)
  {
    InvPlaces(w);
    NextIsNew(w);
    CreateMakes(w.t, req, mapOk);
    UserMapKeeps(w, req, mapOk);
    InvPlaces(Next(w, UserMap(req, mapOk)));
    PlacedCloses(Next(w, UserMap(req, mapOk)));
    if w.t.Find(req, true).0.Found? {
      SharedIsListed(w, req);
      FindTakes(w.t, req, true);
    }
  }

  /**
    When the call to the DSP fails the request is undone: a shared map is as it was, a new one gone but
    for KEEP_MAP.
   */
  lemma UserMapRoundTrip(w: World, req: Request, mapOk: bool, id: Id)
    requires Inv(w) && w.t.Closed() && w.removing.None? && w.t.Create(req, mapOk).0 == Some(id)
    requires Next(w, UserMap(req, mapOk)).t.Closed()
    ensures var w2 := Next(Next(w, UserMap(req, mapOk)), UserMapFails(id));
      w2.owners == w.owners && w2.holds == w.holds && Undone(w.t, req, w.t.Find(req, true).0.Found?, w2.t)
  {
    InvPlaces(w);
    NextIsNew(w);
    CreateMakes(w.t, req, mapOk);
    if w.t.Find(req, true).0.Found? {
      SharedIsListed(w, req);
      SharedUndone(w, req);
    } else {
      MadeUndone(w.t, req);
    }
  }

  /** A request that gets no map changes no other map. */
  lemma NoMapNoChange(w: World, req: Request, mapOk: bool)
    requires Inv(w) && w.t.Closed() && !GetsMap(w.t, req, mapOk)
    ensures var (r, t) := w.t.Create(req, mapOk);
      r.None? && SameBut(w.t, t, w.t.next) && w.t.next !in w.t.heap && t.listed == w.t.listed
  {
    InvPlaces(w);
    NextIsNew(w);
    CreateMakes(w.t, req, mapOk);
    WithoutAbsent(w.t.listed, w.t.next);
  }

  /** Where the DSP has put a map is what its record says from then on. */
  lemma UserMappedRecords(w: World, id: Id, raddr: u64)
    requires w.t.Closed() && w.removing.None? && id in w.owners && id in w.t.heap
    ensures var w' := Next(w, UserMapped(id, raddr));
      && id in w'.t.heap && w'.t.heap[id] == w.t.heap[id].(raddr := raddr) && SameBut(w.t, w'.t, id)
      && w'.t.listed == w.t.listed && w'.owners == w.owners && w'.holds == w.holds
  {
  }

  /**
    An unmap starts exactly if some listed map is of its range and descriptor and only its user's, takes
    the first such map, and then it is the one that no other step can get.
   */
  lemma UnmapTakes(w: World, fd: int, va: u64, len: u64)
    requires w.t.Closed() && w.removing.None?
    ensures var w1 := Next(w, RemoveStart(fd, va, len));
      && (w1.removing.Some? <==> HasRange(w.t, fd, va, len)) && (w1.removing.None? ==> w1 == w)
      && (w1.removing.Some? ==>
            && var id := w1.removing.value;
            && IsFirst(w.t, id, m => OnlyUsersRange(m, fd, va, len)) && id in w.t.heap
            && SameBut(w.t, w1.t, id) && id !in w1.t.listed && w1.holds == w.holds && w1.owners == w.owners)
  {
    RemoveTakes(w.t, fd, va, len);
  }

  /**
    A new map of a user that the DSP has put at `raddr`, and its unmap: the table is as before and the
    map released, with KEEP_MAP or without.
   */
  lemma MapRoundTrip(w: World, req: Request, raddr: u64)
    requires Inv(w) && w.t.Closed() && w.removing.None? && w.t.Find(req, true).0.Missed? && !HeapFlags(req.flags)
    ensures var id, w1 := w.t.next, Next(w, UserMap(req, true));
      && w1.t.Closed() && var w2 := Next(w1, UserMapped(id, raddr));
      && w2.t.Closed() && var w3 := Next(w2, RemoveStart(req.fd, raddr, req.len));
      && w3.t.Closed() && w3.removing == Some(id) && var w4 := Next(w3, RemoveDone);
      && w4.t.heap == w.t.heap && w4.t.listed == w.t.listed && w4.t.freed == w.t.freed + [id]
      && w4.owners == w.owners && w4.holds == w.holds && w4.removing.None?
  {
    var id := w.t.next;
    InvPlaces(w);
    NextIsNew(w);
    UserMapGets(w, req, true);
    CreateMakes(w.t, req, true);
    var m := NewMap(req).(raddr := raddr);
    var w2 := Next(Next(w, UserMap(req, true)), UserMapped(id, raddr));
    assert w2.t == Table(w.t.heap[id := m], [id] + w.t.listed, id + 1, w.t.freed);
    MadeIsRemoved(w2, w, m, req.fd, raddr, req.len);
  }

  lemma MadeIsRemoved(w2: World, w: World, m: Mmap, fd: int, va: u64, len: u64)
    requires Inv(w) && w.t.Closed() && w2.removing.None? && w.removing.None? && w2.holds == w.holds
    requires w2.t == Table(w.t.heap[w.t.next := m], [w.t.next] + w.t.listed, w.t.next + 1, w.t.freed)
    requires w2.owners == w.owners + multiset{w.t.next} && m.raddr == va && m.len == len && m.fd == fd
    requires !HeapFlags(m.flags) && m.refs == (if m.keep then 2 else 1) && m.ctxRefs == 0 && m.dmaRefs == 0
    ensures w2.t.Closed() && var w3 := Next(w2, RemoveStart(fd, va, len));
      && w3.t.Closed() && w3.removing == Some(w.t.next) && var w4 := Next(w3, RemoveDone);
      && w4.t.heap == w.t.heap && w4.t.listed == w.t.listed && w4.t.freed == w.t.freed + [w.t.next]
      && w4.owners == w.owners && w4.holds == w.holds && w4.removing.None?
  {
    var id := w.t.next;
    InvPlaces(w);
    NextIsNew(w);
    assert ItemOk(w, id);
    WithoutAbsent(w.t.listed, id);
    assert Without([id] + w.t.listed, id) == w.t.listed;
    assert First(w2.t.heap, w2.t.listed, x => Removable(x, fd, va, len)) == Some(id);
    var w3 := Next(w2, RemoveStart(fd, va, len));
    assert w3.t == Table(w.t.heap[id := m.(refs := 1)], w.t.listed, id + 1, w.t.freed);
    assert w3.t.heap - {id} == w.t.heap;
    assert w2.owners[id := 0] == w.owners;
  }

  /** An unmap of a descriptor ends the KEEP_MAP of each of its listed maps and of no other map. */
  lemma UnmapFdEndsKeep(w: World, fd: int, x: Id)
    requires Inv(w) && w.t.Closed() && w.removing.None? && x in w.t.heap
    ensures var w' := Next(w, RemoveFd(fd));
      && (x in w.t.listed ==> Unkept(w.t, w'.t, fd, x))
      && (x !in w.t.listed ==> x in w'.t.heap && w'.t.heap[x] == w.t.heap[x])
      && w'.holds == w.holds && w'.owners == w.owners
  {
    RemoveFdEndsKeep(w.t, w.t.listed, fd, x);
  }

  // ---------------------------------------------------------------------------------------
  // Runs
  // ---------------------------------------------------------------------------------------

  /** w' is reached from w by some sequence of steps. */
  ghost predicate Reaches(w: World, steps: seq<Step>, w': World)
    decreases |steps|
  {
    if steps == [] then w' == w
    else w.t.Closed() && Reaches(Next(w, steps[0]), steps[1..], w')
  }

  ghost predicate SparingRun(w: World, steps: seq<Step>)
    decreases |steps|
  {
    steps != [] ==> w.t.Closed() && Spares(w, steps[0]) && SparingRun(Next(w, steps[0]), steps[1..])
  }

  lemma {:induction false} RunStays(w: World, steps: seq<Step>, w': World)
    requires Placed(w) && Reaches(w, steps, w')
    ensures Placed(w')
    decreases |steps|
  {
    if steps != [] {
      NextStays(w, steps[0]);
      RunStays(Next(w, steps[0]), steps[1..], w');
    }
  }

  lemma {:induction false} RunKeeps(w: World, steps: seq<Step>, w': World)
    requires Inv(w) && Reaches(w, steps, w') && SparingRun(w, steps)
    ensures Inv(w')
    decreases |steps|
  {
    if steps != [] {
      NextKeeps(w, steps[0]);
      RunKeeps(Next(w, steps[0]), steps[1..], w');
    }
  }

  lemma EmptyOk()
    ensures Inv(EMPTY)
  {
    forall id ensures ItemOk(EMPTY, id) {
    }
  }

  /**
    In every reachable state ctx_refs counts the live buffer arguments that point to a map; such a map
    is listed and not released; nothing is released twice, and what is released is not about to be
    unmapped.
   */
  lemma ReachableIsSafe(steps: seq<Step>, w: World, id: Id)
    requires Reaches(EMPTY, steps, w)
    ensures id in w.t.listed ==> id in w.t.heap
    ensures id in w.t.heap ==> w.t.heap[id].ctxRefs == |set key | key in w.holds && w.holds[key] == id|
    ensures forall key :: key in w.holds && w.holds[key] == id ==> id in w.t.listed && id !in w.t.freed
    ensures Distinct(w.t.freed) && (id in w.t.freed ==> id !in w.t.heap && w.removing != Some(id))
  {
    EmptyOk();
    InvPlaces(EMPTY);
    RunStays(EMPTY, steps, w);
    assert PlaceOk(w, id);
    forall key | key in w.holds && w.holds[key] == id ensures id in w.t.listed {
      assert key in Holders(w.holds, id);
    }
  }

  /**
    If moreover no munmap has failed on a KEEP_MAP map: a listed map has at least one reference and at
    least as many as its contexts, handles and KEEP_MAP attribute account for; what is released is
    owned by no request; and the teardown of the client ends and releases every listed map.
   */
  lemma SparingRunIsAccounted(steps: seq<Step>, w: World, id: Id)
    requires Reaches(EMPTY, steps, w) && SparingRun(EMPTY, steps)
    ensures id in w.t.listed ==> id in w.t.heap && var m := w.t.heap[id];
      m.refs >= 1 && m.refs >= m.ctxRefs + m.dmaRefs + (if m.keep then 1 else 0)
    ensures id in w.t.freed ==> id !in w.owners
    ensures w.t.Closed() && w.t.TornDown().listed == [] && forall x <- w.t.listed :: x in w.t.TornDown().freed
  {
    EmptyOk();
    RunKeeps(EMPTY, steps, w);
    InvPlaces(w);
    PlacedCloses(w);
    assert ItemOk(w, id);
    forall x | x in w.t.listed ensures x in w.t.heap && !Stuck(w.t.heap[x]) {
      assert ItemOk(w, x);
    }
    TeardownEndsIff(w.t);
  }

  /** A client's request for a KEEP_MAP map. */
  const KEPT: Request := Request(3, 4096, 100, 0, true)

  /**
    Two munmaps that fail on one KEEP_MAP map leave it listed without a reference, and the teardown
    of the client does not get past it.
   */
  lemma FailedMunmapsStrandMap() returns (steps: seq<Step>, w: World)
    ensures Reaches(EMPTY, steps, w) && w.t.Closed()
    ensures w.t.listed == [0] && 0 in w.t.heap && w.t.heap[0].keep && w.t.heap[0].refs == 0
    ensures w.t.TornDown() == w.t
  {
    steps := [UserMap(KEPT, true), UserMapped(0, 64)] + TWO_MUNMAPS;
    var m := Mmap(3, 0, 4096, 100, 64, true, 2, 0, 0);
    var w1 := Next(EMPTY, UserMap(KEPT, true));
    assert w1.t.listed == [0] && 0 in w1.t.heap && w1.t.heap[0] == m.(raddr := 0) && 0 in w1.owners;
    var w2 := Next(w1, UserMapped(0, 64));
    assert w2.t.listed == [0] && 0 in w2.t.heap && w2.t.heap[0] == m;
    w := MunmapFailsTwice(w2, m);
    assert steps[0] == UserMap(KEPT, true) && steps[1..][0] == UserMapped(0, 64) && steps[1..][1..] == TWO_MUNMAPS;
    assert Reaches(w1, steps[1..], w);
  }

  const TWO_MUNMAPS: seq<Step> := [RemoveStart(-1, 64, 100), MunmapFails, RemoveStart(-1, 64, 100), MunmapFails]

  lemma MunmapFailsTwice(w: World, m: Mmap) returns (w': World)
    requires w.t.listed == [0] && 0 in w.t.heap && w.t.heap[0] == m && w.removing.None? && !HeapFlags(m.flags)
    requires m.keep && m.raddr == 64 && m.len == 100 && m.refs == 2 && m.ctxRefs == 0 && m.dmaRefs == 0
    ensures Reaches(w, TWO_MUNMAPS, w') && w'.t.listed == [0] && 0 in w'.t.heap && w'.t.heap[0] == m.(refs := 0)
  {
    var w2 := MunmapFailsOnce(w, m);
    w' := MunmapFailsOnce(w2, m.(refs := 1));
    var rest := TWO_MUNMAPS[1..][1..];
    assert rest == [RemoveStart(-1, 64, 100), MunmapFails] && rest[1..] == [MunmapFails] && rest[1..][1..] == [];
    assert Reaches(w2, rest, w');
    assert TWO_MUNMAPS[1..][0] == MunmapFails;
  }

  /** A munmap of the only listed map, a KEEP_MAP one, that fails: one reference less, and listed again. */
  lemma MunmapFailsOnce(w: World, m: Mmap) returns (w': World)
    requires w.t.listed == [0] && 0 in w.t.heap && w.t.heap[0] == m && w.removing.None?
    requires m.keep && m.raddr == 64 && m.len == 100 && 1 <= m.refs <= 2 && m.ctxRefs == 0 && m.dmaRefs == 0
    requires !HeapFlags(m.flags)
    ensures w.t.Closed() && Next(w, RemoveStart(-1, 64, 100)).t.Closed()
    ensures w' == Next(Next(w, RemoveStart(-1, 64, 100)), MunmapFails)
    ensures w'.t.listed == [0] && 0 in w'.t.heap && w'.t.heap[0] == m.(refs := m.refs - 1) && w'.removing.None?
  {
    assert First(w.t.heap, w.t.listed, x => Removable(x, -1, 64, 100)) == Some(0);
    var w1 := Next(w, RemoveStart(-1, 64, 100));
    assert Without([0], 0) == [];
    assert w1.t.listed == [] && w1.removing == Some(0) && w1.t.heap[0] == m.(refs := m.refs - 1);
    w' := Next(w1, MunmapFails);
  }

  predicate Finishes(s: Step) {
    s.RemoveDone? || s.RemoveFails? || s.MunmapFails?
  }

  /** While an unmap waits for the DSP, no other step touches the map it took. */
  lemma TakenIsUntouched(w: World, s: Step)
    requires Placed(w) && w.t.Closed() && w.removing.Some? && !Finishes(s)
    ensures var w' := Next(w, s);
      && w'.removing == w.removing && w.removing.value in w.t.heap && w.removing.value in w'.t.heap
      && w'.t.heap[w.removing.value] == w.t.heap[w.removing.value]
  {
    var id := w.removing.value;
    assert PlaceOk(w, id);
    match s
    case GetBuffer(key, req, mapOk) => CreateLeavesUnlisted(w, req, mapOk, id);
    case GetHandle(req, mapOk) => CreateLeavesUnlisted(w, req.(keep := false), mapOk, id);
    case DropBuffer(key) =>
      if key in w.holds {
        assert key in Holders(w.holds, w.holds[key]) && PlaceOk(w, w.holds[key]);
      }
    case DspReleases(fd) =>
      FirstFacts(w.t.heap, w.t.listed, m => Serves(m, Request(fd, 0, 0, 0, false)));
    case _ =>
  }

  lemma CreateLeavesUnlisted(w: World, req: Request, mapOk: bool, id: Id)
    requires Placed(w) && w.t.Closed() && id in w.t.heap && id !in w.t.listed
    ensures var (r, t) := w.t.Create(req, mapOk);
      id in t.heap && t.heap[id] == w.t.heap[id] && r != Some(id)
  {
    FirstFacts(w.t.heap, w.t.listed, m => Serves(m, req));
    assert PlaceOk(w, id);
  }

  lemma {:induction false} TakenSurvivesRun(w: World, steps: seq<Step>, w': World)
    requires Placed(w) && w.removing.Some? && Reaches(w, steps, w') && forall s <- steps :: !Finishes(s)
    ensures w'.removing == w.removing && w.removing.value in w.t.heap && w.removing.value in w'.t.heap
    ensures w'.t.heap[w.removing.value] == w.t.heap[w.removing.value]
    decreases |steps|
  {
    assert PlaceOk(w, w.removing.value);
    if steps != [] {
      NextStays(w, steps[0]);
      TakenIsUntouched(w, steps[0]);
      TakenSurvivesRun(Next(w, steps[0]), steps[1..], w');
    }
  }

  /**
    A mem_unmap that fails on the DSP restores its map in every interleaving: whatever ran in
    between, the map is listed again, once, with the counters it had before the call.
   */
  lemma FailedUnmapRestores(w: World, fd: int, va: u64, len: u64, steps: seq<Step>, w2: World)
    requires Placed(w) && w.t.Closed() && w.removing.None? && w.t.Remove(fd, va, len).0.Some?
    requires Reaches(Next(w, RemoveStart(fd, va, len)), steps, w2) && forall s <- steps :: !Finishes(s)
    ensures w2.t.Closed()
    ensures var id, w3 := w.t.Remove(fd, va, len).0.value, Next(w2, RemoveFails);
      && id in w.t.heap && id in w3.t.heap && w3.t.heap[id] == w.t.heap[id]
      && multiset(w3.t.listed) == multiset(w2.t.listed) + multiset{id} && id !in w2.t.listed
  {
    var w1 := Next(w, RemoveStart(fd, va, len));
    var id := w1.removing.value;
    NextStays(w, RemoveStart(fd, va, len));
    TakenSurvivesRun(w1, steps, w2);
    RunStays(w1, steps, w2);
    PlacedCloses(w2);
    assert PlaceOk(w2, id);
    FirstFacts(w.t.heap, w.t.listed, m => Removable(m, fd, va, len));
    assert PlaceOk(w, id);
    assert multiset([id] + w2.t.listed) == multiset{id} + multiset(w2.t.listed);
  }

  // ---------------------------------------------------------------------------------------
  // context_free
  // ---------------------------------------------------------------------------------------

  /** The loop of context_free over maps[], under one hold of map_mutex. */
  function DropAll(t: Table, maps: seq<Option<Id>>): Table
    decreases |maps|
  {
    if maps == [] then t
    else DropAll(if maps[0].Some? then DropOne(t, maps[0].value) else t, maps[1..])
  }

  method ContextFree(l: MapList, maps: seq<Option<Id>>)
    modifies l
    ensures l.View() == DropAll(old(l.View()), maps)
  {
    var i := 0;
    while i < |maps|
      invariant i <= |maps| && DropAll(l.View(), maps[i..]) == DropAll(old(l.View()), maps)
    {
      assert maps[i..][0] == maps[i] && maps[i..][1..] == maps[i + 1..];
      if maps[i].Some? && maps[i].value in l.heap {
        var id := maps[i].value;
        if l.heap[id].ctxRefs != 0 {
          l.heap := l.heap[id := l.heap[id].(ctxRefs := l.heap[id].ctxRefs - 1)];
        }
        l.Free(id, false);
      }
      i := i + 1;
    }
  }

  /** maps[] of context ctx agrees with what the context holds from argument n on. */
  ghost predicate MapsOf(w: World, ctx: nat, maps: seq<Option<Id>>, n: nat) {
    forall i :: n <= i < |maps| ==> MapAt(w, ctx, maps, i)
  }

  ghost predicate MapAt(w: World, ctx: nat, maps: seq<Option<Id>>, i: nat)
    requires i < |maps|
  {
    var key := ArgKey(ctx, i);
    if maps[i].Some? then key in w.holds && w.holds[key] == maps[i].value else key !in w.holds
  }

  /**
    Freeing a context is a run of single drops: it ends with the invariants intact, the table that
    the loop computes, and nothing held by the context any more.
   */
  lemma {:induction false} ContextFreeIsRun(w: World, ctx: nat, maps: seq<Option<Id>>, n: nat) returns (w': World)
    requires Placed(w) && n <= |maps| && MapsOf(w, ctx, maps, n)
    ensures Placed(w') && w'.t == DropAll(w.t, maps[n..]) && (Inv(w) ==> Inv(w'))
    ensures w'.holds == map key | key in w.holds && !(key.ctx == ctx && n <= key.arg < |maps|) :: w.holds[key]
    ensures w'.owners == w.owners && w'.removing == w.removing
    decreases |maps| - n
  {
    if n == |maps| {
      w' := w;
    } else {
      assert maps[n..][0] == maps[n] && maps[n..][1..] == maps[n + 1..];
      assert MapAt(w, ctx, maps, n);
      PlacedCloses(w);
      var w1 := w;
      if maps[n].Some? {
        var key := ArgKey(ctx, n);
        assert key in Holders(w.holds, maps[n].value) && PlaceOk(w, maps[n].value);
        NextStays(w, DropBuffer(key));
        if Inv(w) {
          NextKeeps(w, DropBuffer(key));
        }
        w1 := Next(w, DropBuffer(key));
      }
      forall i | n + 1 <= i < |maps| ensures MapAt(w1, ctx, maps, i) {
        assert MapAt(w, ctx, maps, i);
      }
      w' := ContextFreeIsRun(w1, ctx, maps, n + 1);
    }
  }
}

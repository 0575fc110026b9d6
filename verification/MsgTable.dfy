/**
  The message table and the transmit buffers of the virtio transport: virt_alloc_msg, virt_free_msg,
  get_a_tx_buf and vfastrpc_txbuf_send.  The table is under msglock and the queue under vq_lock, so
  taking a slot and taking a buffer are separate steps.
 */
module MessageTables {
  import opened Common
  import opened Counting

  /** The address of a message. */
  type Msg = nat

  /** A live message: its id, its transmit buffer, and whether that has been given to the queue. */
  datatype Record = Record(msgid: nat, tx: Option<nat>, queued: bool)

  /**
    The table; the live messages; the next buffer never handed out, of `numBufs`; and the buffers in
    the queue, whose used ones come back in the device's order.
   */
  datatype Apps = Apps(table: seq<Option<Msg>>, msgs: map<Msg, Record>, lastSbuf: nat, numBufs: nat, ring: seq<nat>)

  datatype Step =
    | TakeSlot(m: Msg)
    | TakeBuffer(m: Msg, used: Option<nat>)  // virtqueue_get_buf returns the used-th queue entry, or none
    | Send(m: Msg, accepted: bool)           // virtqueue_add_outbuf
    | Release(m: Msg)

  /** get_a_tx_buf: the next unused buffer, or a recycled one. */
  function GetTxBuf(a: Apps, used: Option<nat>): (Option<nat>, Apps) {
    if a.lastSbuf < a.numBufs then (Some(a.lastSbuf), a.(lastSbuf := a.lastSbuf + 1))
    else if used.Some? && used.value < |a.ring| then
      (Some(a.ring[used.value]), a.(ring := RemoveAt(a.ring, used.value)))
    else (None, a)
  }

  /** virt_free_msg: the slot is cleared only if it is the message's own. */
  function FreeMsg(a: Apps, m: Msg): Apps
    requires m in a.msgs
  {
    var i := a.msgs[m].msgid;
    a.(table := if i < |a.table| && a.table[i] == Some(m) then a.table[i := None] else a.table, msgs := a.msgs - {m})
  }

  function Next(a: Apps, s: Step): Apps {
    match s
    case TakeSlot(m) =>
      var i := FirstFree(a.table, 0);
      if m in a.msgs || i == |a.table| then a
      else a.(table := a.table[i := Some(m)], msgs := a.msgs[m := Record(i, None, false)])
    case TakeBuffer(m, used) =>
      if m !in a.msgs || a.msgs[m].tx.Some? then a
      else
        var (b, a1) := GetTxBuf(a, used);
        if b.Some? then a1.(msgs := a.msgs[m := a.msgs[m].(tx := b)]) else FreeMsg(a, m)
    case Send(m, accepted) =>
      if m !in a.msgs || a.msgs[m].tx.None? || a.msgs[m].queued || !accepted then a
      else a.(ring := a.ring + [a.msgs[m].tx.value], msgs := a.msgs[m := a.msgs[m].(queued := true)])
    case Release(m) => if m in a.msgs then FreeMsg(a, m) else a
  }

  // ---------------------------------------------------------------------------------------
  // The invariant
  // ---------------------------------------------------------------------------------------

  /** The live message that owns buffer b: it has it and has not queued it. */
  ghost predicate Owns(a: Apps, m: Msg, b: nat) {
    m in a.msgs && a.msgs[m].tx == Some(b) && !a.msgs[m].queued
  }

  ghost predicate SlotOk(a: Apps, i: nat)
    requires i < |a.table|
  {
    a.table[i].Some? ==> a.table[i].value in a.msgs && a.msgs[a.table[i].value].msgid == i
  }

  ghost predicate MsgOk(a: Apps, m: Msg)
    requires m in a.msgs
  {
    a.msgs[m].msgid < |a.table| && a.table[a.msgs[m].msgid] == Some(m) && (a.msgs[m].queued ==> a.msgs[m].tx.Some?)
  }

  /** A buffer that has been handed out is in the queue or with its owner, not both; one that has not is in neither. */
  ghost predicate OwnedOk(a: Apps, m: Msg, b: nat) {
    Owns(a, m, b) ==> b < a.lastSbuf && b !in a.ring
  }

  ghost predicate Inv(a: Apps) {
    && a.lastSbuf <= a.numBufs
    && Distinct(a.ring) && Below(a.ring, a.lastSbuf)
    && (forall i :: 0 <= i < |a.table| ==> SlotOk(a, i))
    && (forall m :: m in a.msgs ==> MsgOk(a, m))
    && (forall m, b :: OwnedOk(a, m, b))
    && (forall m, n, b :: Owns(a, m, b) && Owns(a, n, b) ==> m == n)
  }

  lemma InitOk(slots: nat, numBufs: nat)
    ensures Inv(Apps(seq(slots, _ => None), map[], 0, numBufs, []))
  {
    var a := Apps(seq(slots, _ => None), map[], 0, numBufs, []);
    assert forall m, b :: OwnedOk(a, m, b);
  }

  lemma FreeKeeps(a: Apps, m: Msg)
    requires Inv(a) && m in a.msgs
    ensures Inv(FreeMsg(a, m))
  {
    var a' := FreeMsg(a, m);
    assert MsgOk(a, m);
    forall i | 0 <= i < |a'.table| ensures SlotOk(a', i) {
      assert SlotOk(a, i);
    }
    forall x | x in a'.msgs ensures MsgOk(a', x) {
      assert MsgOk(a, x);
    }
    forall x, b ensures OwnedOk(a', x, b) && (Owns(a', x, b) ==> Owns(a, x, b)) {
      assert OwnedOk(a, x, b);
    }
  }

  lemma TakeSlotKeeps(a: Apps, m: Msg)
    requires Inv(a)
    ensures Inv(Next(a, TakeSlot(m)))
  {
    var a' := Next(a, TakeSlot(m));
    forall i | 0 <= i < |a'.table| ensures SlotOk(a', i) {
      assert SlotOk(a, i);
    }
    forall x | x in a'.msgs ensures MsgOk(a', x) {
      assert x in a.msgs ==> MsgOk(a, x);
    }
    forall x, b ensures OwnedOk(a', x, b) && (Owns(a', x, b) ==> Owns(a, x, b)) {
      assert OwnedOk(a, x, b);
    }
  }

  lemma TakeBufferKeeps(a: Apps, m: Msg, used: Option<nat>)
    requires Inv(a)
    ensures Inv(Next(a, TakeBuffer(m, used)))
  {
    if m in a.msgs && a.msgs[m].tx.None? {
      var (b, a1) := GetTxBuf(a, used);
      if b.None? {
        FreeKeeps(a, m);
      } else {
        var a' := Next(a, TakeBuffer(m, used));
        assert MsgOk(a, m);
        forall i | 0 <= i < |a'.table| ensures SlotOk(a', i) {
          assert SlotOk(a, i);
        }
        forall x | x in a'.msgs ensures MsgOk(a', x) {
          assert MsgOk(a, x);
        }
        TakenIsOutside(a, used);
        forall x, c
          ensures OwnedOk(a', x, c) && (x != m ==> (Owns(a', x, c) <==> Owns(a, x, c)))
          ensures Owns(a, x, c) ==> c != b.value
        {
          assert OwnedOk(a, x, c);
        }
      }
    }
  }

  /** The buffer that get_a_tx_buf returns is in the queue no longer and was with nobody. */
  lemma TakenIsOutside(a: Apps, used: Option<nat>)
    requires Inv(a) && GetTxBuf(a, used).0.Some?
    ensures var (b, a') := GetTxBuf(a, used);
      && b.value < a'.lastSbuf <= a'.numBufs && b.value !in a'.ring && Distinct(a'.ring) && Below(a'.ring, a'.lastSbuf)
      && (forall c :: c in a'.ring ==> c in a.ring)
      && (forall x :: !Owns(a, x, b.value))
  {
    var (b, a') := GetTxBuf(a, used);
    if a.lastSbuf >= a.numBufs {
      var u := used.value;
      forall j | 0 <= j < |a'.ring| ensures a'.ring[j] != b.value && a'.ring[j] in a.ring {
        assert a'.ring[j] == a.ring[if j < u then j else j + 1];
      }
    }
    forall x ensures !Owns(a, x, b.value) {
      assert OwnedOk(a, x, b.value);
    }
  }

  lemma SendKeeps(a: Apps, m: Msg, accepted: bool)
    requires Inv(a)
    ensures Inv(Next(a, Send(m, accepted)))
  {
    if m in a.msgs && a.msgs[m].tx.Some? && !a.msgs[m].queued && accepted {
      var a' := Next(a, Send(m, accepted));
      var b := a.msgs[m].tx.value;
      assert MsgOk(a, m) && Owns(a, m, b) && OwnedOk(a, m, b);
      forall i | 0 <= i < |a'.table| ensures SlotOk(a', i) {
        assert SlotOk(a, i);
      }
      forall x | x in a'.msgs ensures MsgOk(a', x) {
        assert MsgOk(a, x);
      }
      forall x, c ensures OwnedOk(a', x, c) && (Owns(a', x, c) ==> Owns(a, x, c)) {
        assert OwnedOk(a, x, c);
        assert Owns(a, x, c) && c == b ==> x == m;
      }
    }
  }

  lemma NextKeeps(a: Apps, s: Step)
    requires Inv(a)
    ensures Inv(Next(a, s)) && Next(a, s).numBufs == a.numBufs
  {
    match s
    case TakeSlot(m) => TakeSlotKeeps(a, m);
    case TakeBuffer(m, used) => TakeBufferKeeps(a, m, used);
    case Send(m, accepted) => SendKeeps(a, m, accepted);
    case Release(m) =>
      if m in a.msgs {
        FreeKeeps(a, m);
      }
  }

  function Run(a: Apps, steps: seq<Step>): Apps
    decreases |steps|
  {
    if steps == [] then a else Run(Next(a, steps[0]), steps[1..])
  }

  lemma {:induction false} RunKeeps(a: Apps, steps: seq<Step>)
    requires Inv(a)
    ensures Inv(Run(a, steps)) && Run(a, steps).numBufs == a.numBufs
    decreases |steps|
  {
    if steps != [] {
      NextKeeps(a, steps[0]);
      RunKeeps(Next(a, steps[0]), steps[1..]);
    }
  }

  lemma {:induction false} BoundedRing(ring: seq<nat>, n: nat)
    requires Distinct(ring) && Below(ring, n)
    ensures |ring| <= n
  {
    DistinctSize(ring, |ring|);
    RangeFacts(0, n);
    SubsetSize(set k | 0 <= k < |ring| :: ring[k], Range(0, n));
  }

  /**
    In every interleaving: live messages have distinct ids, each in its own slot; a transmit buffer is
    in one place only, never handed out, in the queue or with one live message; and the queue never
    holds more than the buffers there are.
   */
  lemma BuffersHaveOnePlace(slots: nat, numBufs: nat, steps: seq<Step>, m: Msg, n: Msg, b: nat)
    ensures var a := Run(Apps(seq(slots, _ => None), map[], 0, numBufs, []), steps);
      && (m in a.msgs ==> a.msgs[m].msgid < |a.table| && a.table[a.msgs[m].msgid] == Some(m))
      && (m in a.msgs && n in a.msgs && m != n ==> a.msgs[m].msgid != a.msgs[n].msgid)
      && (Owns(a, m, b) ==> b < a.lastSbuf && b !in a.ring)
      && (Owns(a, m, b) && Owns(a, n, b) ==> m == n)
      && (b in a.ring ==> b < a.lastSbuf <= numBufs)
      && Distinct(a.ring) && |a.ring| <= numBufs
  {
    var a0 := Apps(seq(slots, _ => None), map[], 0, numBufs, []);
    InitOk(slots, numBufs);
    RunKeeps(a0, steps);
    var a := Run(a0, steps);
    assert m in a.msgs ==> MsgOk(a, m);
    assert n in a.msgs ==> MsgOk(a, n);
    assert OwnedOk(a, m, b);
    BoundedRing(a.ring, a.lastSbuf);
  }

  // ---------------------------------------------------------------------------------------
  // What each step does
  // ---------------------------------------------------------------------------------------

  /**
    There is a transmit buffer to take unless every buffer has been handed out and the queue returns
    none: the next one never handed out, or the used one, which leaves the queue.
   */
  lemma TxBufIff(a: Apps, used: Option<nat>)
    requires Inv(a)
    ensures var (b, a') := GetTxBuf(a, used);
      && (b.None? <==> a.lastSbuf == a.numBufs && (used.None? || used.value >= |a.ring|))
      && (b.None? ==> a' == a)
      && (b.Some? && a.lastSbuf < a.numBufs ==> b.value == a.lastSbuf && a' == a.(lastSbuf := a.lastSbuf + 1))
      && (b.Some? && a.lastSbuf == a.numBufs ==>
            && b.value == a.ring[used.value]
            && a' == a.(ring := a.ring[..used.value] + a.ring[used.value + 1..])
            && multiset(a.ring) == multiset(a'.ring) + multiset{b.value})
  {
    if a.lastSbuf == a.numBufs && used.Some? && used.value < |a.ring| {
      assert a.ring == a.ring[..used.value] + [a.ring[used.value]] + a.ring[used.value + 1..];
    }
  }

  /**
    A new message gets the lowest free slot and then a buffer; if there is no slot, or no buffer, all is
    as it was before.
   */
  lemma MessageGets(a: Apps, m: Msg, used: Option<nat>)
    requires Inv(a) && m !in a.msgs
    ensures var a' := Next(Next(a, TakeSlot(m)), TakeBuffer(m, used));
      && (m in a'.msgs <==>
            && (exists i :: 0 <= i < |a.table| && a.table[i].None?)
            && !(a.lastSbuf == a.numBufs && (used.None? || used.value >= |a.ring|)))
      && (m !in a'.msgs ==> a' == a)
      && (m in a'.msgs ==>
            && var i := a'.msgs[m].msgid;
            && i < |a.table| && a.table[i].None? && (forall j :: 0 <= j < i ==> a.table[j].Some?)
            && a'.table == a.table[i := Some(m)] && a'.msgs == a.msgs[m := a'.msgs[m]]
            && GetTxBuf(a, used).0 == a'.msgs[m].tx && Owns(a', m, a'.msgs[m].tx.value)
            && a'.ring == GetTxBuf(a, used).1.ring && a'.lastSbuf == GetTxBuf(a, used).1.lastSbuf)
  {
    TxBufIff(a, used);
    var i, a1 := FirstFree(a.table, 0), Next(a, TakeSlot(m));
    if i < |a.table| {
      assert a1.table[i := None] == a.table && a1.msgs - {m} == a.msgs;
      assert GetTxBuf(a1, used).0 == GetTxBuf(a, used).0;
    }
  }

  /** An accepted message gives its buffer to the queue, last in it, and keeps its slot; a refused one keeps it. */
  lemma SendGives(a: Apps, m: Msg, b: nat, accepted: bool)
    requires Inv(a) && Owns(a, m, b)
    ensures var a' := Next(a, Send(m, accepted));
      && (accepted ==> a'.ring == a.ring + [b] && (forall x :: !Owns(a', x, b)) && m in a'.msgs
                       && a'.msgs[m].msgid == a.msgs[m].msgid)
      && (!accepted ==> a' == a) && a'.table == a.table && a'.lastSbuf == a.lastSbuf
      && forall x :: x in a.msgs && x != m ==> x in a'.msgs && a'.msgs[x] == a.msgs[x]
  {
    assert OwnedOk(a, m, b) && MsgOk(a, m);
    OneOwner(a, m, b);
    assert forall x :: Owns(Next(a, Send(m, accepted)), x, b) ==> Owns(a, x, b);
  }

  lemma OneOwner(a: Apps, m: Msg, b: nat)
    requires Inv(a) && Owns(a, m, b)
    ensures forall x :: Owns(a, x, b) ==> x == m
  {
  }

  /** A released message gives its slot back, and no other slot or message changes. */
  lemma ReleaseGives(a: Apps, m: Msg)
    requires Inv(a) && m in a.msgs
    ensures var a' := Next(a, Release(m));
      && a.msgs[m].msgid < |a.table| && a'.table == a.table[a.msgs[m].msgid := None] && a'.msgs == a.msgs - {m}
      && a'.ring == a.ring && a'.lastSbuf == a.lastSbuf
  {
    assert MsgOk(a, m);
  }

  // ---------------------------------------------------------------------------------------
  // Buffers that are lost
  // ---------------------------------------------------------------------------------------

  /** The buffer has been handed out and is neither in the queue nor with a message. */
  ghost predicate Lost(a: Apps, b: nat) {
    b < a.lastSbuf && b !in a.ring && forall m :: !Owns(a, m, b)
  }

  /** A message releases its slot before the queue has accepted its buffer. */
  ghost predicate ReleasedUnsent(a: Apps, steps: seq<Step>, b: nat)
    decreases |steps|
  {
    steps != [] &&
    ((steps[0].Release? && Owns(a, steps[0].m, b)) || ReleasedUnsent(Next(a, steps[0]), steps[1..], b))
  }

  lemma StepLosesIff(a: Apps, s: Step, b: nat)
    requires Inv(a)
    ensures Lost(Next(a, s), b) <==> Lost(a, b) || (s.Release? && Owns(a, s.m, b))
  {
    var a' := Next(a, s);
    NextKeeps(a, s);
    forall m ensures OwnedOk(a, m, b) {
    }
    match s
    case TakeSlot(m) =>
      assert forall x :: Owns(a', x, b) <==> Owns(a, x, b);
    case TakeBuffer(m, used) => TakeLosesNone(a, m, used, b);
    case Send(m, accepted) =>
      if m in a.msgs && a.msgs[m].tx.Some? && Owns(a, m, a.msgs[m].tx.value) {
        SendGives(a, m, a.msgs[m].tx.value, accepted);
        assert forall x :: x != m ==> (Owns(a', x, b) <==> Owns(a, x, b));
        assert b in a'.ring <==> b in a.ring || (accepted && Owns(a, m, b));
      }
    case Release(m) =>
      if m in a.msgs {
        ReleaseGives(a, m);
        if Owns(a, m, b) {
          OneOwner(a, m, b);
          assert OwnedOk(a, m, b);
        }
        assert forall x :: Owns(a', x, b) <==> x != m && Owns(a, x, b);
      }
  }

  lemma TakeLosesNone(a: Apps, m: Msg, used: Option<nat>, b: nat)
    requires Inv(a)
    ensures Lost(Next(a, TakeBuffer(m, used)), b) <==> Lost(a, b)
  {
    if m in a.msgs && a.msgs[m].tx.None? {
      var a' := Next(a, TakeBuffer(m, used));
      var (t, a1) := GetTxBuf(a, used);
      TxBufIff(a, used);
      if t.None? {
        assert forall x :: Owns(a', x, b) <==> Owns(a, x, b);
      } else {
        TakenIsOutside(a, used);
        assert forall x :: x != m ==> (Owns(a', x, b) <==> Owns(a, x, b));
        assert MsgOk(a, m);
        assert Owns(a', m, b) <==> b == t.value;
        assert b != t.value ==> (b in a1.ring <==> b in a.ring) by {
          assert b in a.ring <==> b in multiset(a.ring);
          assert b in a1.ring <==> b in multiset(a1.ring);
        }
      }
    }
  }

  /**
    In every interleaving a transmit buffer is lost, for good, if and only if some message is released
    while it has the buffer and the queue has not accepted it; any other buffer that has been handed out
    is in the queue or with a live message.
   */
  lemma {:induction false} LostIff(a: Apps, steps: seq<Step>, b: nat)
    requires Inv(a)
    ensures Lost(Run(a, steps), b) <==> Lost(a, b) || ReleasedUnsent(a, steps, b)
    decreases |steps|
  {
    if steps != [] {
      StepLosesIff(a, steps[0], b);
      NextKeeps(a, steps[0]);
      LostIff(Next(a, steps[0]), steps[1..], b);
    }
  }

  /** With one buffer, a call that fails between taking it and sending it is the last one that gets any. */
  lemma FailedCallTakesLastBuffer(slots: nat, m: Msg, steps: seq<Step>, used: Option<nat>)
    requires slots > 0
    ensures var a := Run(Apps(seq(slots, _ => None), map[], 0, 1, []), [TakeSlot(m), TakeBuffer(m, None), Release(m)]);
      Lost(a, 0) && Lost(Run(a, steps), 0) && GetTxBuf(Run(a, steps), used).0.None?
  {
    var a0 := Apps(seq(slots, _ => None), map[], 0, 1, []);
    var first := [TakeSlot(m), TakeBuffer(m, None), Release(m)];
    assert first[1..] == [TakeBuffer(m, None), Release(m)] && first[1..][1..] == [Release(m)];
    assert first[1..][1..][1..] == [];
    InitOk(slots, 1);
    var a1 := Next(a0, TakeSlot(m));
    var a2 := Next(a1, TakeBuffer(m, None));
    assert Owns(a2, m, 0);
    RunKeeps(a0, first);
    LostIff(a0, first, 0);
    assert ReleasedUnsent(a2, [Release(m)], 0) && ReleasedUnsent(a1, first[1..], 0);
    var a := Run(a0, first);
    LostIff(a, steps, 0);
    RunKeeps(a, steps);
    BoundedRing(Run(a, steps).ring, 1);
    assert Below(Run(a, steps).ring, 1);
  }

  // ---------------------------------------------------------------------------------------
  // The table in memory
  // ---------------------------------------------------------------------------------------

  /** The scan of virt_alloc_msg; the table size stands for a full table. */
  method AllocSlot(msgtable: array<Option<Msg>>, m: Msg) returns (i: nat)
    modifies msgtable
    ensures i == FirstFree(old(msgtable[..]), 0)
    ensures msgtable[..] == if i < msgtable.Length then old(msgtable[..])[i := Some(m)] else old(msgtable[..])
  {
    i := 0;
    while i < msgtable.Length
      invariant i <= msgtable.Length && msgtable[..] == old(msgtable[..])
      invariant FirstFree(msgtable[..], i) == FirstFree(msgtable[..], 0)
    {
      if msgtable[i].None? {
        msgtable[i] := Some(m);
        break;
      }
      i := i + 1;
    }
  }

  class Messages {
    const msgtable: array<Option<Msg>>
    var msgs: map<Msg, Record>
    var lastSbuf: nat
    const numBufs: nat
    var ring: seq<nat>

    constructor (slots: nat, numBufs: nat)
      ensures View() == Apps(seq(slots, _ => None), map[], 0, numBufs, []) && fresh(msgtable)
    {
      msgtable := new Option<Msg>[slots](_ => None);
      msgs, lastSbuf, ring := map[], 0, [];
      this.numBufs := numBufs;
      new;
      assert msgtable[..] == seq(slots, _ => None);
    }

    function View(): Apps
      reads this, msgtable
    {
      Apps(msgtable[..], msgs, lastSbuf, numBufs, ring)
    }

    /** get_a_tx_buf */
    method GetBuffer(used: Option<nat>) returns (b: Option<nat>)
      modifies this
      ensures (b, View()) == GetTxBuf(old(View()), used)
    {
      if lastSbuf < numBufs {
        b := Some(lastSbuf);
        lastSbuf := lastSbuf + 1;
      } else if used.Some? && used.value < |ring| {
        b := Some(ring[used.value]);
        ring := RemoveAt(ring, used.value);
      } else {
        b := None;
      }
    }

    /** virt_free_msg */
    method Free(m: Msg)
      requires m in msgs
      modifies this, msgtable
      ensures View() == FreeMsg(old(View()), m)
    {
      var i := msgs[m].msgid;
      if i < msgtable.Length && msgtable[i] == Some(m) {
        msgtable[i] := None;
      }
      msgs := msgs - {m};
    }

    /** virt_alloc_msg for a message at a new address: a slot, then a buffer, or neither. */
    method Alloc(m: Msg, used: Option<nat>) returns (ok: bool)
      requires m !in msgs
      modifies this, msgtable
      ensures View() == Next(Next(old(View()), TakeSlot(m)), TakeBuffer(m, used))
      ensures ok <==> m in msgs
    {
      var i := AllocSlot(msgtable, m);
      if i == msgtable.Length {
        return false;
      }
      msgs := msgs[m := Record(i, None, false)];
      var b := GetBuffer(used);
      if b.None? {
        Free(m);
        return false;
      }
      msgs := msgs[m := msgs[m].(tx := b)];
      ok := true;
    }

    /** vfastrpc_txbuf_send */
    method SendTx(m: Msg, accepted: bool)
      requires m in msgs && msgs[m].tx.Some? && !msgs[m].queued
      modifies this
      ensures View() == Next(old(View()), Send(m, accepted))
    {
      if accepted {
        ring := ring + [msgs[m].tx.value];
        msgs := msgs[m := msgs[m].(queued := true)];
      }
    }
  }
}

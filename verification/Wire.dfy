/**
  The invoke message of the virtio driver: the measuring pass, the fallback that moves large
  arguments to internal buffers, the filling pass of get_args and the reading pass of put_args.

  Lengths are sums in 64-bit words, as in the driver; Offset and Size below are the sums without
  truncation.  Transmit memory is a map from offsets in the message to bytes.
 */
module WireLayout {
  import opened Common
  import Pages

  const INVOKE_HDR: nat := 46   // sizeof(struct virt_invoke_msg), packed
  const MAPPING_HDR: nat := 32  // sizeof(struct virt_fastrpc_mapping), packed
  const SGL_ENTRY: nat := 16    // sizeof(struct virt_fastrpc_sgl)
  const M_FDLIST: nat := 16
  const M_CRCLIST: nat := 64
  const M_DSP_PERF_LIST: nat := 12

  /** The part of a map the message describes. */
  datatype Mapping = Mapping(nents: u32, bufferMapped: bool)

  /** A buffer argument: user address, length and, if it has a descriptor, its map. */
  datatype Arg = Arg(pv: u64, len: u64, mapping: Option<Mapping>)

  /** The two layouts; `nents` are the scatterlist lengths of the internal buffers. */
  datatype Layout = Plain | Internal(nents: seq<u32>)

  /** struct virt_fastrpc_buf, without the attributes that do not bear on the layout. */
  datatype WireBuf = WireBuf(pv: u64, bufLen: u64, payloadLen: u64)

  datatype Status = Done | NoMemory | Fault

  function SizeOfMapping(nents: u32): u64 {
    MAPPING_HDR + nents * SGL_ENTRY
  }

  /** get_size_of_mapping */
  function GetSizeOfMapping(m: Mapping): u64 {
    if m.bufferMapped then SizeOfMapping(0) else SizeOfMapping(m.nents)
  }

  datatype Invoke = Invoke(args: seq<Arg>, inbufs: nat, handles: seq<Option<Mapping>>, page: nat) {

    /** get_args maps only arguments with a length. */
    ghost predicate Valid() {
      && inbufs <= |args| && page > 0
      && forall i :: 0 <= i < |args| && args[i].mapping.Some? ==> args[i].len > 0
    }

    function Total(): nat {
      |args| + |handles|
    }

    predicate Fits(l: Layout) {
      l.Internal? ==> |l.nents| == |args|
    }

    /** Argument i travels in an internal buffer. */
    predicate IsInternal(l: Layout, i: nat)
      requires i < |args|
    {
      l.Internal? && args[i].mapping.None? && args[i].len >= page
    }

    /** The payload bytes that entry i of the message has. */
    function PayloadLen(l: Layout, i: nat): u64
      requires i < Total() && Fits(l)
    {
      if i >= |args| then
        if handles[i - |args|].Some? then SizeOfMapping(handles[i - |args|].value.nents) else 0
      else if args[i].mapping.Some? then GetSizeOfMapping(args[i].mapping.value)
      else if IsInternal(l, i) then SizeOfMapping(l.nents[i])
      else args[i].len
    }

    /** Payload bytes before entry i, not truncated. */
    function Offset(l: Layout, i: nat): nat
      requires i <= Total() && Fits(l)
    {
      if i == 0 then 0 else Offset(l, i - 1) + PayloadLen(l, i - 1)
    }

    /** The header, a packed struct virt_fastrpc_buf of 40 bytes per entry, and the result lists. */
    function MetaLen(): nat {
      INVOKE_HDR + Total() * 40 + 8 * M_FDLIST + 4 * M_CRCLIST + 4 + 8 * M_DSP_PERF_LIST
    }

    function Size(l: Layout): nat
      requires Fits(l)
    {
      MetaLen() + Offset(l, Total())
    }

    /** The write cursor of the filling pass before entry i, a word. */
    function Cursor(l: Layout, i: nat): nat
      requires i <= Total() && Fits(l)
    {
      Wrap64(MetaLen() + Offset(l, i))
    }

    /** The payload bytes of the first n handles. */
    function HandleLen(n: nat): nat
      requires n <= |handles|
    {
      if n == 0 then 0
      else HandleLen(n - 1) + if handles[n - 1].Some? then SizeOfMapping(handles[n - 1].value.nents) else 0
    }
  }

  lemma {:induction false} OffsetGrows(v: Invoke, l: Layout, i: nat, j: nat)
    requires v.Fits(l) && i <= j <= v.Total()
    ensures v.Offset(l, i) <= v.Offset(l, j)
  {
    if i < j {
      OffsetGrows(v, l, i, j - 1);
    }
  }

  // ---------------------------------------------------------------------------------------
  // Measuring
  // ---------------------------------------------------------------------------------------

  lemma WrapAdd64(sum: nat, len: nat)
    ensures Wrap64(Wrap64(sum) + len) == Wrap64(sum + len)
  {
    var t := Wrap64(sum) + len;
    var q := sum / 0x1_0000_0000_0000_0000 + t / 0x1_0000_0000_0000_0000;
    Pages.DivModUnique(sum + len, q, Wrap64(t), 0x1_0000_0000_0000_0000);
  }

  lemma WrapAdd32(sum: nat, len: nat)
    ensures Wrap32(Wrap32(sum) + len) == Wrap32(sum + len)
  {
    var t := Wrap32(sum) + len;
    Pages.DivModUnique(sum + len, sum / 0x1_0000_0000 + t / 0x1_0000_0000, Wrap32(t), 0x1_0000_0000);
  }

  lemma Wrap32Of64(sum: nat)
    ensures Wrap32(Wrap64(sum)) == Wrap32(sum)
  {
    var s := Wrap64(sum);
    var q := sum / 0x1_0000_0000_0000_0000 * 0x1_0000_0000 + s / 0x1_0000_0000;
    Pages.DivModUnique(sum, q, Wrap32(s), 0x1_0000_0000);
  }

  /** A running sum of words is the truncated sum. */
  lemma WrapAdd(sum: nat, len: nat)
    ensures Wrap64(Wrap64(sum) + len) == Wrap64(sum + len)
    ensures Wrap32(Wrap32(sum) + len) == Wrap32(sum + len)
    ensures Wrap32(Wrap64(sum)) == Wrap32(sum)
  {
    WrapAdd64(sum, len);
    WrapAdd32(sum, len);
    Wrap32Of64(sum);
  }

  /** The length the first pass adds for argument i. */
  method PlainLen(v: Invoke, i: nat) returns (len: nat)
    requires v.Valid() && i < |v.args|
    ensures len == v.PayloadLen(Plain, i)
  {
    len := v.args[i].len;
    if len != 0 && v.args[i].mapping.Some? {
      len := GetSizeOfMapping(v.args[i].mapping.value);
    }
  }

  /** First pass over the buffers: copylen is a 64-bit word, outbufs_offset a 32-bit one. */
  method MeasurePlain(v: Invoke) returns (copylen: nat, outOff: nat)
    requires v.Valid()
    ensures copylen == Wrap64(v.Offset(Plain, |v.args|))
    ensures outOff == Wrap32(v.Offset(Plain, v.inbufs))
  {
    copylen, outOff := 0, 0;
    var i := 0;
    while i < |v.args|
      invariant i <= |v.args| && copylen == Wrap64(v.Offset(Plain, i))
      invariant outOff == Wrap32(v.Offset(Plain, if i < v.inbufs then i else v.inbufs))
    {
      var len := PlainLen(v, i);
      WrapAdd(v.Offset(Plain, i), len);
      copylen := Wrap64(copylen + len);
      if i < v.inbufs {
        outOff := Wrap32(outOff + len);
      }
      i := i + 1;
    }
  }

  /** Fallback pass; `allocFails` are the arguments whose internal buffer cannot be had. */
  method MeasureInternal(v: Invoke, nents: seq<u32>, allocFails: set<nat>)
    returns (ok: bool, copylen: nat, outOff: nat)
    requires v.Valid() && |nents| == |v.args|
    ensures ok <==> forall i :: 0 <= i < |v.args| && v.IsInternal(Internal(nents), i) ==> i !in allocFails
    ensures ok ==> copylen == Wrap64(v.Offset(Internal(nents), |v.args|))
    ensures ok ==> outOff == Wrap32(v.Offset(Internal(nents), v.inbufs))
  {
    ok, copylen, outOff := true, 0, 0;
    var i := 0;
    ghost var l := Internal(nents);
    while i < |v.args|
      invariant i <= |v.args| && v.Fits(l) && copylen == Wrap64(v.Offset(l, i))
      invariant outOff == Wrap32(v.Offset(l, if i < v.inbufs then i else v.inbufs))
      invariant forall k :: 0 <= k < i && v.IsInternal(l, k) ==> k !in allocFails
    {
      WrapAdd(v.Offset(l, i), v.PayloadLen(l, i));
      var len := v.args[i].len;
      if v.args[i].mapping.Some? {
        len := GetSizeOfMapping(v.args[i].mapping.value);
      } else if len >= v.page {
        assert v.IsInternal(l, i);
        if i in allocFails {
          ok := false;
          return;
        }
        len := SizeOfMapping(nents[i]);
      }
      assert len == v.PayloadLen(l, i);
      copylen := Wrap64(copylen + len);
      if i < v.inbufs {
        outOff := Wrap32(outOff + len);
      }
      i := i + 1;
    }
  }

  method MeasureHandles(v: Invoke) returns (handlelen: nat)
    requires v.Valid()
    ensures handlelen == Wrap64(v.HandleLen(|v.handles|))
  {
    handlelen := 0;
    var i := 0;
    while i < |v.handles|
      invariant i <= |v.handles| && handlelen == Wrap64(v.HandleLen(i))
    {
      if v.handles[i].Some? {
        WrapAdd(v.HandleLen(i), SizeOfMapping(v.handles[i].value.nents));
        handlelen := Wrap64(handlelen + SizeOfMapping(v.handles[i].value.nents));
      }
      i := i + 1;
    }
  }

  lemma {:induction false} HandlesFollow(v: Invoke, l: Layout, n: nat)
    requires v.Fits(l) && n <= |v.handles|
    ensures v.Offset(l, |v.args| + n) == v.Offset(l, |v.args|) + v.HandleLen(n)
  {
    if n > 0 {
      HandlesFollow(v, l, n - 1);
    }
  }

  lemma WrapSum(m: nat, o: nat, h: nat)
    ensures Wrap64(m + Wrap64(o) + Wrap64(h)) == Wrap64(m + o + h)
  {
    WrapAdd64(h, m + Wrap64(o));
    WrapAdd64(o, m + h);
  }

  /** The size the driver computes is the true size, truncated. */
  lemma SizeIsTruncated(v: Invoke, l: Layout)
    requires v.Fits(l)
    ensures Wrap64(v.MetaLen() + Wrap64(v.Offset(l, |v.args|)) + Wrap64(v.HandleLen(|v.handles|))) == Wrap64(v.Size(l))
  {
    HandlesFollow(v, l, |v.handles|);
    WrapSum(v.MetaLen(), v.Offset(l, |v.args|), v.HandleLen(|v.handles|));
  }

  /** virt_alloc_msg takes the size as a 32-bit number. */
  predicate MessageGranted(size: nat, bufSize: nat) {
    Wrap32(size) <= bufSize
  }

  /** The layout the driver takes, from the truncated size of the plain one. */
  predicate TakesPlain(v: Invoke, bufSize: nat) {
    Wrap64(v.Size(Plain)) <= bufSize
  }

  /** The metadata and the space reserved for every entry lie inside the transmit buffer. */
  ghost predicate ReservedInside(v: Invoke, l: Layout, bufSize: nat)
    requires v.Fits(l)
  {
    && v.MetaLen() <= bufSize
    && forall i :: 0 <= i < v.Total() ==> EndsInside(v, l, bufSize, i)
  }

  ghost predicate EndsInside(v: Invoke, l: Layout, bufSize: nat, i: nat)
    requires v.Fits(l) && i < v.Total()
  {
    v.MetaLen() + v.Offset(l, i) + v.PayloadLen(l, i) <= bufSize
  }

  lemma ReservedInsideIffSize(v: Invoke, l: Layout, bufSize: nat)
    requires v.Fits(l)
    ensures ReservedInside(v, l, bufSize) <==> v.Size(l) <= bufSize
  {
    var n := v.Total();
    if v.Size(l) <= bufSize {
      forall i | 0 <= i < n ensures EndsInside(v, l, bufSize, i) {
        ReservedIsInside(v, l, i, n);
      }
    }
    if n > 0 && ReservedInside(v, l, bufSize) {
      assert EndsInside(v, l, bufSize, n - 1);
    }
  }

  /**
    A granted message stays inside its transmit buffer if and only if its true size is a 64-bit
    number, in the plain layout, and a 32-bit number in the internal one.
   */
  lemma GrantedStaysInsideIff(v: Invoke, l: Layout, bufSize: nat)
    requires v.Fits(l) && bufSize < U32 && (l == Plain <==> TakesPlain(v, bufSize))
    requires MessageGranted(Wrap64(v.Size(l)), bufSize)
    ensures ReservedInside(v, l, bufSize) <==> v.Size(l) < if l == Plain then WORD else U32
  {
    ReservedInsideIffSize(v, l, bufSize);
    WrapAdd(v.Size(l), 0);
  }

  // ---------------------------------------------------------------------------------------
  // Filling
  // ---------------------------------------------------------------------------------------

  /** The bytes of `data` from address `at` on. */
  function Stored(at: int, data: seq<byte>): Memory {
    if data == [] then map[] else Stored(at, data[..|data| - 1])[at + |data| - 1 := data[|data| - 1]]
  }

  lemma {:induction false} StoredFacts(at: int, data: seq<byte>)
    ensures forall a :: a in Stored(at, data) <==> at <= a < at + |data|
    ensures forall a :: at <= a < at + |data| ==> Stored(at, data)[a] == data[a - at]
  {
    if data != [] {
      StoredFacts(at, data[..|data| - 1]);
    }
  }

  function UserBytes(user: nat -> byte, pv: nat, len: nat): (s: seq<byte>)
    ensures |s| == len
    ensures forall k :: 0 <= k < len ==> s[k] == user(pv + k)
  {
    seq(len, k requires 0 <= k < len => user(pv + k))
  }

  /**
    What the filling pass puts at the cursor for entry i: the user's bytes of an inline input, or
    the map descriptor `desc(i)`; nothing for an inline output.
   */
  function Data(v: Invoke, l: Layout, user: nat -> byte, desc: nat -> seq<byte>, i: nat): seq<byte>
    requires i < v.Total() && v.Fits(l)
  {
    if i >= |v.args| then (if v.handles[i - |v.args|].Some? then desc(i) else [])
    else if v.args[i].mapping.Some? || v.IsInternal(l, i) then desc(i)
    else if i < v.inbufs then UserBytes(user, v.args[i].pv, v.args[i].len)
    else []
  }

  /** A descriptor is its header and one entry per scatterlist element written. */
  ghost predicate Described(v: Invoke, l: Layout, desc: nat -> seq<byte>) {
    v.Fits(l) && forall i :: 0 <= i < v.Total() ==> DescribedAt(v, l, desc, i)
  }

  ghost predicate DescribedAt(v: Invoke, l: Layout, desc: nat -> seq<byte>, i: nat)
    requires i < v.Total() && v.Fits(l)
  {
    && (i >= |v.args| && v.handles[i - |v.args|].Some? ==>
          |desc(i)| == MAPPING_HDR + v.handles[i - |v.args|].value.nents * SGL_ENTRY)
    && (i < |v.args| && v.args[i].mapping.Some? ==>
          var m := v.args[i].mapping.value;
          |desc(i)| == MAPPING_HDR + (if m.bufferMapped then 0 else m.nents) * SGL_ENTRY)
    && (i < |v.args| && v.IsInternal(l, i) ==> |desc(i)| == MAPPING_HDR + l.nents[i] * SGL_ENTRY)
  }

  lemma DataWithinPayload(v: Invoke, l: Layout, user: nat -> byte, desc: nat -> seq<byte>, i: nat)
    requires i < v.Total() && Described(v, l, desc)
    ensures |Data(v, l, user, desc, i)| <= v.PayloadLen(l, i)
    ensures Data(v, l, user, desc, i) == [] || |Data(v, l, user, desc, i)| == v.PayloadLen(l, i)
  {
    assert DescribedAt(v, l, desc, i);
  }

  ghost predicate HoldsAt(mem: Memory, at: int, data: seq<byte>) {
    forall a :: at <= a < at + |data| ==> a in mem && mem[a] == data[a - at]
  }

  ghost predicate EntryHolds(v: Invoke, l: Layout, user: nat -> byte, desc: nat -> seq<byte>, mem: Memory, i: nat)
    requires i < v.Total() && v.Fits(l)
  {
    HoldsAt(mem, v.MetaLen() + v.Offset(l, i), Data(v, l, user, desc, i))
  }

  ghost predicate FilledTo(v: Invoke, l: Layout, user: nat -> byte, desc: nat -> seq<byte>, mem: Memory, n: nat)
    requires n <= v.Total() && v.Fits(l)
  {
    forall i :: 0 <= i < n ==> EntryHolds(v, l, user, desc, mem, i)
  }

  lemma StoreHolds(mem: Memory, at: int, data: seq<byte>)
    ensures HoldsAt(mem + Stored(at, data), at, data)
  {
    StoredFacts(at, data);
  }

  lemma StoreElsewhereKeeps(mem: Memory, at: int, data: seq<byte>, at': int, data': seq<byte>)
    requires HoldsAt(mem, at, data) && at + |data| <= at'
    ensures HoldsAt(mem + Stored(at', data'), at, data)
  {
    StoredFacts(at', data');
  }

  lemma StoreStaysWithin(lo: int, hi: int, mem0: Memory, mem: Memory, at: int, data: seq<byte>)
    requires WritesWithin(lo, hi, mem0, mem) && lo <= at && at + |data| <= hi
    ensures WritesWithin(lo, hi, mem0, mem + Stored(at, data))
  {
    StoredFacts(at, data);
    forall a | !(lo <= a < hi) ensures SameAt(mem0, mem + Stored(at, data), a) {
      assert SameAt(mem0, mem, a);
    }
  }

  /** The write of the filling pass for entry n; the cursor is a 64-bit word. */
  function StoredEntry(v: Invoke, l: Layout, user: nat -> byte, desc: nat -> seq<byte>, n: nat): Memory
    requires n < v.Total() && v.Fits(l)
  {
    Stored(v.Cursor(l, n), Data(v, l, user, desc, n))
  }

  /** Transmit memory after the first n entries. */
  function Image(v: Invoke, l: Layout, user: nat -> byte, desc: nat -> seq<byte>, mem0: Memory, n: nat): Memory
    requires n <= v.Total() && v.Fits(l)
  {
    if n == 0 then mem0 else Image(v, l, user, desc, mem0, n - 1) + StoredEntry(v, l, user, desc, n - 1)
  }

  lemma CursorAdvances(v: Invoke, l: Layout, n: nat)
    requires v.Fits(l) && n < v.Total()
    ensures Wrap64(v.Cursor(l, n) + v.PayloadLen(l, n)) == v.Cursor(l, n + 1)
  {
    WrapAdd(v.MetaLen() + v.Offset(l, n), v.PayloadLen(l, n));
  }

  /** No truncation before the end of a message whose size is a 64-bit number. */
  lemma CursorFits(v: Invoke, l: Layout, n: nat)
    requires v.Fits(l) && n <= v.Total() && v.Size(l) < WORD
    ensures v.Cursor(l, n) == v.MetaLen() + v.Offset(l, n)
  {
    OffsetGrows(v, l, n, v.Total());
  }

  /** Entry n is stored behind every earlier entry. */
  lemma EntryKept(v: Invoke, l: Layout, user: nat -> byte, desc: nat -> seq<byte>, mem: Memory, i: nat, n: nat)
    requires i < n < v.Total() && Described(v, l, desc) && v.Size(l) < WORD && EntryHolds(v, l, user, desc, mem, i)
    ensures EntryHolds(v, l, user, desc, mem + StoredEntry(v, l, user, desc, n), i)
  {
    CursorFits(v, l, n);
    OffsetGrows(v, l, i + 1, n);
    DataWithinPayload(v, l, user, desc, i);
    StoreElsewhereKeeps(mem, v.MetaLen() + v.Offset(l, i), Data(v, l, user, desc, i),
                        v.MetaLen() + v.Offset(l, n), Data(v, l, user, desc, n));
  }

  lemma StoreKeepsFilled(v: Invoke, l: Layout, user: nat -> byte, desc: nat -> seq<byte>, mem: Memory, n: nat)
    requires n < v.Total() && Described(v, l, desc) && v.Size(l) < WORD && FilledTo(v, l, user, desc, mem, n)
    ensures FilledTo(v, l, user, desc, mem + StoredEntry(v, l, user, desc, n), n + 1)
  {
    CursorFits(v, l, n);
    StoreHolds(mem, v.MetaLen() + v.Offset(l, n), Data(v, l, user, desc, n));
    forall i | 0 <= i < n ensures EntryHolds(v, l, user, desc, mem + StoredEntry(v, l, user, desc, n), i) {
      assert EntryHolds(v, l, user, desc, mem, i);
      EntryKept(v, l, user, desc, mem, i, n);
    }
  }

  /** Nothing outside the payload area of the message is written. */
  ghost predicate WritesWithin(lo: int, hi: int, mem0: Memory, mem: Memory) {
    forall a :: !(lo <= a < hi) ==> SameAt(mem0, mem, a)
  }

  ghost predicate EntriesTo(v: Invoke, l: Layout, rpra: seq<WireBuf>, n: nat)
    requires n <= |v.args| <= |rpra| && v.Fits(l)
  {
    forall i :: 0 <= i < n ==> EntryAt(v, l, rpra, i)
  }

  ghost predicate EntryAt(v: Invoke, l: Layout, rpra: seq<WireBuf>, i: nat)
    requires i < |v.args| <= |rpra| && v.Fits(l)
  {
    rpra[i] == WireBuf(v.args[i].pv, v.args[i].len, v.PayloadLen(l, i))
  }

  lemma EntriesStep(v: Invoke, l: Layout, rpra: seq<WireBuf>, n: nat, buf: WireBuf)
    requires n < |v.args| <= |rpra| && v.Fits(l) && EntriesTo(v, l, rpra, n)
    requires buf == WireBuf(v.args[n].pv, v.args[n].len, v.PayloadLen(l, n))
    ensures EntriesTo(v, l, rpra[n := buf], n + 1)
  {
    var rpra' := rpra[n := buf];
    forall i | 0 <= i < n ensures EntryAt(v, l, rpra', i) {
      assert EntryAt(v, l, rpra, i);
    }
  }

  /** The message after the first n entries: all of them in place and nothing else touched. */
  ghost predicate Progress(v: Invoke, l: Layout, user: nat -> byte, desc: nat -> seq<byte>, mem0: Memory, mem: Memory,
      n: nat)
    requires n <= v.Total() && v.Fits(l)
  {
    FilledTo(v, l, user, desc, mem, n) && WritesWithin(v.MetaLen(), v.Size(l), mem0, mem)
  }

  lemma FillStep(v: Invoke, l: Layout, user: nat -> byte, desc: nat -> seq<byte>, mem0: Memory, mem: Memory, n: nat)
    requires n < v.Total() && Described(v, l, desc) && v.Size(l) < WORD && Progress(v, l, user, desc, mem0, mem, n)
    ensures Progress(v, l, user, desc, mem0, mem + StoredEntry(v, l, user, desc, n), n + 1)
  {
    CursorFits(v, l, n);
    StoreKeepsFilled(v, l, user, desc, mem, n);
    DataWithinPayload(v, l, user, desc, n);
    OffsetGrows(v, l, n + 1, v.Total());
    StoreStaysWithin(v.MetaLen(), v.Size(l), mem0, mem, v.MetaLen() + v.Offset(l, n), Data(v, l, user, desc, n));
  }

  /** In a message whose size is a 64-bit number every entry is in place and nothing else is written. */
  lemma {:induction false} ImageIsMessage(v: Invoke, l: Layout, user: nat -> byte, desc: nat -> seq<byte>, mem0: Memory,
      n: nat)
    requires n <= v.Total() && Described(v, l, desc) && v.Size(l) < WORD
    ensures Progress(v, l, user, desc, mem0, Image(v, l, user, desc, mem0, n), n)
  {
    if n > 0 {
      ImageIsMessage(v, l, user, desc, mem0, n - 1);
      FillStep(v, l, user, desc, mem0, Image(v, l, user, desc, mem0, n - 1), n - 1);
    }
  }

  // ---------------------------------------------------------------------------------------
  // What a complete message holds
  // ---------------------------------------------------------------------------------------

  /** Where the write for entry n starts, and that it ends before the space of entry n + 1. */
  lemma WriteEnds(v: Invoke, l: Layout, user: nat -> byte, desc: nat -> seq<byte>, n: nat)
    requires n < v.Total() && Described(v, l, desc) && v.Size(l) < WORD
    ensures v.Cursor(l, n) == v.MetaLen() + v.Offset(l, n)
    ensures v.Cursor(l, n) + |Data(v, l, user, desc, n)| <= v.MetaLen() + v.Offset(l, n + 1)
  {
    CursorFits(v, l, n);
    DataWithinPayload(v, l, user, desc, n);
  }

  lemma NotStored(at: int, data: seq<byte>, a: int)
    requires data == [] || a < at || at + |data| <= a
    ensures a !in Stored(at, data)
  {
    StoredFacts(at, data);
  }

  /** The write for entry n does not touch the space of an output that travels in the message. */
  lemma EntryMissesOutput(v: Invoke, l: Layout, user: nat -> byte, desc: nat -> seq<byte>, n: nat, i: nat, a: int)
    requires v.inbufs <= i < |v.args| && n < v.Total() && Described(v, l, desc) && v.Size(l) < WORD
    requires v.args[i].mapping.None? && !v.IsInternal(l, i)
    requires InSpan(a, v.MetaLen() + v.Offset(l, i), v.args[i].len)
    ensures a !in StoredEntry(v, l, user, desc, n)
  {
    WriteEnds(v, l, user, desc, n);
    if n < i {
      OffsetGrows(v, l, n + 1, i);
    } else if n > i {
      OffsetGrows(v, l, i + 1, n);
    }
    NotStored(v.Cursor(l, n), Data(v, l, user, desc, n), a);
  }

  /** The space of an output that travels in the message is left alone. */
  lemma {:induction false} OutputSpaceKept(v: Invoke, l: Layout, user: nat -> byte, desc: nat -> seq<byte>,
      mem0: Memory, n: nat, i: nat, a: int)
    requires v.inbufs <= i < |v.args| && n <= v.Total() && Described(v, l, desc) && v.Size(l) < WORD
    requires v.args[i].mapping.None? && !v.IsInternal(l, i)
    requires InSpan(a, v.MetaLen() + v.Offset(l, i), v.args[i].len)
    ensures SameAt(mem0, Image(v, l, user, desc, mem0, n), a)
  {
    if n > 0 {
      OutputSpaceKept(v, l, user, desc, mem0, n - 1, i, a);
      EntryMissesOutput(v, l, user, desc, n - 1, i, a);
    }
  }

  /**
    Entry i of a message: the descriptor of a map or of an internal buffer, the user's bytes of any
    other input, and space that is as it was for any other output.  In the fallback layout exactly the
    unmapped arguments of less than a page travel in the message.
   */
  ghost predicate EntryRight(v: Invoke, l: Layout, user: nat -> byte, desc: nat -> seq<byte>, mem0: Memory, mem: Memory,
                             i: nat)
    requires i < v.Total() && v.Fits(l)
  {
    var at := v.MetaLen() + v.Offset(l, i);
    if i >= |v.args| then v.handles[i - |v.args|].Some? ==> HoldsAt(mem, at, desc(i))
    else if v.args[i].mapping.Some? || (l.Internal? && v.args[i].len >= v.page) then HoldsAt(mem, at, desc(i))
    else if i < v.inbufs then
      forall a :: at <= a < at + v.args[i].len ==> a in mem && mem[a] == user(v.args[i].pv + (a - at))
    else forall a :: at <= a < at + v.args[i].len ==> SameAt(mem0, mem, a)
  }

  /** What the filling pass copies to the internal buffers, by argument. */
  function InnerAt(v: Invoke, l: Layout, user: nat -> byte, n: nat): map<nat, seq<byte>>
    requires v.Fits(l)
  {
    if n == 0 then map[]
    else
      var inner := InnerAt(v, l, user, n - 1);
      if n - 1 < |v.args| && n - 1 < v.inbufs && v.IsInternal(l, n - 1)
      then inner[n - 1 := UserBytes(user, v.args[n - 1].pv, v.args[n - 1].len)] else inner
  }

  /** An internal buffer gets the user's bytes exactly if it stands for an unmapped input of a page or more. */
  ghost predicate InnerRight(v: Invoke, l: Layout, user: nat -> byte, inner: map<nat, seq<byte>>) {
    && (forall i: nat :: i in inner <==>
          i < v.inbufs && i < |v.args| && v.args[i].mapping.None? && l.Internal? && v.args[i].len >= v.page)
    && (forall i: nat :: i in inner && i < |v.args| ==>
          |inner[i]| == v.args[i].len && forall k :: 0 <= k < v.args[i].len ==> inner[i][k] == user(v.args[i].pv + k))
  }

  ghost predicate MessageRight(v: Invoke, l: Layout, user: nat -> byte, desc: nat -> seq<byte>, mem0: Memory,
                               mem: Memory)
    requires v.Fits(l)
  {
    && (forall i :: 0 <= i < v.Total() ==> EntryRight(v, l, user, desc, mem0, mem, i))
    && WritesWithin(v.MetaLen(), v.Size(l), mem0, mem)
  }

  lemma ImageIsRight(v: Invoke, l: Layout, user: nat -> byte, desc: nat -> seq<byte>, mem0: Memory)
    requires Described(v, l, desc) && v.Size(l) < WORD
    ensures MessageRight(v, l, user, desc, mem0, Image(v, l, user, desc, mem0, v.Total()))
  {
    var mem := Image(v, l, user, desc, mem0, v.Total());
    ImageIsMessage(v, l, user, desc, mem0, v.Total());
    forall i | 0 <= i < v.Total() ensures EntryRight(v, l, user, desc, mem0, mem, i) {
      EntryIsRight(v, l, user, desc, mem0, i);
    }
  }

  lemma EntryIsRight(v: Invoke, l: Layout, user: nat -> byte, desc: nat -> seq<byte>, mem0: Memory, i: nat)
    requires Described(v, l, desc) && v.Size(l) < WORD && i < v.Total()
    requires EntryHolds(v, l, user, desc, Image(v, l, user, desc, mem0, v.Total()), i)
    ensures EntryRight(v, l, user, desc, mem0, Image(v, l, user, desc, mem0, v.Total()), i)
  {
    var mem := Image(v, l, user, desc, mem0, v.Total());
    if v.inbufs <= i < |v.args| && v.args[i].mapping.None? && !v.IsInternal(l, i) {
      var at := v.MetaLen() + v.Offset(l, i);
      forall a | at <= a < at + v.args[i].len ensures SameAt(mem0, mem, a) {
        OutputSpaceKept(v, l, user, desc, mem0, v.Total(), i, a);
      }
    } else {
      HeldIsRight(v, l, user, desc, mem0, mem, i);
    }
  }

  lemma HeldIsRight(v: Invoke, l: Layout, user: nat -> byte, desc: nat -> seq<byte>, mem0: Memory, mem: Memory, i: nat)
    requires i < v.Total() && v.Fits(l) && EntryHolds(v, l, user, desc, mem, i)
    requires i < v.inbufs || i >= |v.args| || v.args[i].mapping.Some? || v.IsInternal(l, i)
    ensures EntryRight(v, l, user, desc, mem0, mem, i)
  {
  }

  // ---------------------------------------------------------------------------------------
  // The filling pass
  // ---------------------------------------------------------------------------------------

  /** The state of the filling pass: transmit memory, the cursor, and the copies in internal buffers. */
  datatype Filling = Filling(mem: Memory, payload: nat, inner: map<nat, seq<byte>>)

  function FillingAt(v: Invoke, l: Layout, user: nat -> byte, desc: nat -> seq<byte>, mem0: Memory, i: nat): Filling
    requires i <= v.Total() && v.Fits(l)
  {
    Filling(Image(v, l, user, desc, mem0, i), v.Cursor(l, i), InnerAt(v, l, user, i))
  }

  lemma {:induction false} InnerMembers(v: Invoke, l: Layout, user: nat -> byte, n: nat, i: nat)
    requires v.Fits(l)
    ensures i in InnerAt(v, l, user, n) <==> i < n && i < |v.args| && i < v.inbufs && v.IsInternal(l, i)
    ensures i in InnerAt(v, l, user, n) ==> InnerAt(v, l, user, n)[i] == UserBytes(user, v.args[i].pv, v.args[i].len)
  {
    if n > 0 {
      InnerMembers(v, l, user, n - 1, i);
    }
  }

  lemma InnerIsRight(v: Invoke, l: Layout, user: nat -> byte, n: nat)
    requires v.Fits(l) && n >= |v.args|
    ensures InnerRight(v, l, user, InnerAt(v, l, user, n))
  {
    forall i: nat
      ensures i in InnerAt(v, l, user, n) <==> i < n && i < |v.args| && i < v.inbufs && v.IsInternal(l, i)
      ensures i in InnerAt(v, l, user, n) ==> InnerAt(v, l, user, n)[i] == UserBytes(user, v.args[i].pv, v.args[i].len)
    {
      InnerMembers(v, l, user, n, i);
    }
  }

  /** One buffer entry of the three kinds. */
  method FillOne(v: Invoke, l: Layout, user: nat -> byte, desc: nat -> seq<byte>, ghost mem0: Memory, i: nat,
                 f: Filling)
    returns (buf: WireBuf, f': Filling)
    requires v.Valid() && v.Fits(l) && i < |v.args| && f == FillingAt(v, l, user, desc, mem0, i)
    ensures buf == WireBuf(v.args[i].pv, v.args[i].len, v.PayloadLen(l, i))
    ensures f' == FillingAt(v, l, user, desc, mem0, i + 1)
  {
    CursorAdvances(v, l, i);
    var arg := v.args[i];
    var mem, inner := f.mem, f.inner;
    if arg.mapping.Some? {
      buf := WireBuf(arg.pv, arg.len, GetSizeOfMapping(arg.mapping.value));
      mem := mem + Stored(f.payload, desc(i));
    } else if l.Internal? && arg.len >= v.page {
      buf := WireBuf(arg.pv, arg.len, SizeOfMapping(l.nents[i]));
      mem := mem + Stored(f.payload, desc(i));
      if i < v.inbufs && arg.len != 0 {
        inner := inner[i := UserBytes(user, arg.pv, arg.len)];
      }
    } else {
      buf := WireBuf(arg.pv, arg.len, arg.len);
      if i < v.inbufs && arg.len != 0 {
        mem := mem + Stored(f.payload, UserBytes(user, arg.pv, arg.len));
      } else {
        assert Data(v, l, user, desc, i) == [];
      }
    }
    assert mem == f.mem + StoredEntry(v, l, user, desc, i);
    f' := Filling(mem, Wrap64(f.payload + buf.payloadLen), inner);
  }

  /** One handle entry: the descriptor of its map, if it has one. */
  method FillHandle(v: Invoke, l: Layout, ghost user: nat -> byte, desc: nat -> seq<byte>, ghost mem0: Memory, i: nat,
                    f: Filling)
    returns (f': Filling)
    requires v.Fits(l) && |v.args| <= i < v.Total() && f == FillingAt(v, l, user, desc, mem0, i)
    ensures f' == FillingAt(v, l, user, desc, mem0, i + 1)
  {
    CursorAdvances(v, l, i);
    f' := f;
    var h := v.handles[i - |v.args|];
    if h.Some? {
      f' := f.(mem := f.mem + Stored(f.payload, desc(i)), payload := Wrap64(f.payload + SizeOfMapping(h.value.nents)));
    }
    assert f'.mem == f.mem + StoredEntry(v, l, user, desc, i);
  }

  /** The loop over the buffer entries. */
  method FillBuffers(v: Invoke, l: Layout, user: nat -> byte, desc: nat -> seq<byte>, faults: set<nat>, mem0: Memory,
                     rpra: array<WireBuf>)
    returns (ok: bool, f: Filling)
    requires v.Valid() && v.Fits(l) && rpra.Length == v.Total()
    modifies rpra
    ensures ok <==> forall i :: 0 <= i < |v.args| ==> i !in faults
    ensures ok ==> f == FillingAt(v, l, user, desc, mem0, |v.args|) && EntriesTo(v, l, rpra[..], |v.args|)
  {
    ok, f := true, Filling(mem0, Wrap64(v.MetaLen()), map[]);
    var i := 0;
    while i < |v.args|
      invariant i <= |v.args| && f == FillingAt(v, l, user, desc, mem0, i)
      invariant forall k :: 0 <= k < i ==> k !in faults
      invariant EntriesTo(v, l, rpra[..], i)
    {
      if i in faults {
        ok := false;
        return;
      }
      ghost var was := rpra[..];
      var buf;
      buf, f := FillOne(v, l, user, desc, mem0, i, f);
      EntriesStep(v, l, was, i, buf);
      rpra[i] := buf;
      assert rpra[..] == was[i := buf];
      i := i + 1;
    }
  }

  method FillHandles(v: Invoke, l: Layout, ghost user: nat -> byte, desc: nat -> seq<byte>, ghost mem0: Memory,
                     f0: Filling)
    returns (f: Filling)
    requires v.Fits(l) && f0 == FillingAt(v, l, user, desc, mem0, |v.args|)
    ensures f == FillingAt(v, l, user, desc, mem0, v.Total())
  {
    f := f0;
    var i := |v.args|;
    while i < v.Total()
      invariant |v.args| <= i <= v.Total() && f == FillingAt(v, l, user, desc, mem0, i)
    {
      f := FillHandle(v, l, user, desc, mem0, i, f);
      i := i + 1;
    }
  }

  /**
    The filling pass over buffers and handles.  `payload` starts behind the metadata; `faults` are
    the entries at which a user copy or the address check of a map fails.
   */
  method Fill(v: Invoke, l: Layout, user: nat -> byte, desc: nat -> seq<byte>, faults: set<nat>, mem0: Memory,
              rpra: array<WireBuf>)
    returns (ok: bool, payload: nat, mem: Memory, inner: map<nat, seq<byte>>)
    requires v.Valid() && v.Fits(l) && rpra.Length == v.Total()
    modifies rpra
    ensures ok <==> forall i :: 0 <= i < |v.args| ==> i !in faults
    ensures ok ==> payload == Wrap64(v.Size(l)) && mem == Image(v, l, user, desc, mem0, v.Total())
    ensures ok ==> EntriesTo(v, l, rpra[..], |v.args|) && InnerRight(v, l, user, inner)
  {
    var f;
    ok, f := FillBuffers(v, l, user, desc, faults, mem0, rpra);
    if ok {
      f := FillHandles(v, l, user, desc, mem0, f);
      InnerIsRight(v, l, user, v.Total());
    }
    payload, mem, inner := f.payload, f.mem, f.inner;
  }

  /** A message of 32-bit size: the offset kept for put_args is the true start of the outputs. */
  lemma OutputOffsetFits(v: Invoke, l: Layout)
    requires v.Valid() && v.Fits(l) && v.Size(l) < U32
    ensures Wrap32(v.Offset(l, v.inbufs)) == v.Offset(l, v.inbufs)
  {
    OffsetGrows(v, l, v.inbufs, v.Total());
  }

  /** Argument i needs an internal buffer in the fallback layout: it has no map and a page or more. */
  ghost predicate NeedsInner(v: Invoke, i: nat)
    requires i < |v.args|
  {
    v.args[i].mapping.None? && v.args[i].len >= v.page
  }

  /** Why get_args runs out of memory in layout l. */
  ghost predicate OutOfMemory(v: Invoke, l: Layout, bufSize: u32, tableOk: bool, allocFails: set<nat>, slotFree: bool)
    requires v.Fits(l)
  {
    || (l.Internal? && (!tableOk || exists i :: 0 <= i < |v.args| && NeedsInner(v, i) && i in allocFails))
    || Wrap32(Wrap64(v.Size(l))) > bufSize || !slotFree
  }

  /** The measuring passes, the choice of the layout and the message slot. */
  method ChooseLayout(v: Invoke, bufSize: u32, nents: seq<u32>, tableOk: bool, allocFails: set<nat>, slotFree: bool)
    returns (ok: bool, l: Layout, size: nat, outOff: nat)
    requires v.Valid() && |nents| == |v.args|
    ensures v.Fits(l) && l == if Wrap64(v.Size(Plain)) <= bufSize then Plain else Internal(nents)
    ensures !ok <==> OutOfMemory(v, l, bufSize, tableOk, allocFails, slotFree)
    ensures ok ==> size == Wrap64(v.Size(l)) && outOff == Wrap32(v.Offset(l, v.inbufs))
  {
    l, ok := Plain, false;
    var copylen;
    copylen, outOff := MeasurePlain(v);
    var handlelen := MeasureHandles(v);
    size := Wrap64(v.MetaLen() + copylen + handlelen);
    SizeIsTruncated(v, Plain);
    if size > bufSize {
      l := Internal(nents);
      assert forall i :: 0 <= i < |v.args| ==> (v.IsInternal(l, i) <==> NeedsInner(v, i));
      if !tableOk {
        return;
      }
      var had;
      had, copylen, outOff := MeasureInternal(v, nents, allocFails);
      if !had {
        return;
      }
      size := Wrap64(v.MetaLen() + copylen + handlelen);
      SizeIsTruncated(v, l);
    }
    ok := MessageGranted(size, bufSize) && slotFree;
  }

  /**
    get_args: the plain layout when its truncated size fits the transmit buffer, the internal one
    otherwise.  A granted message is filled to its truncated size; when its true size is a 64-bit number
    every entry is right, and when it is a 32-bit number no write leaves the buffer.  `slotFree` says
    that a message slot and a transmit buffer are to be had, `tableOk` that the descriptor table is;
    `inner` is what is copied to the internal buffers.
   */
  method GetArgs(v: Invoke, bufSize: u32, nents: seq<u32>, tableOk: bool, allocFails: set<nat>, slotFree: bool,
                 user: nat -> byte, desc: Layout -> nat -> seq<byte>, faults: set<nat>, mem0: Memory,
                 rpra: array<WireBuf>)
    returns (status: Status, l: Layout, size: nat, outOff: nat, payload: nat, mem: Memory, inner: map<nat, seq<byte>>)
    requires v.Valid() && |nents| == |v.args| && rpra.Length == v.Total()
    requires forall k :: v.Fits(k) ==> Described(v, k, desc(k))
    modifies rpra
    ensures v.Fits(l) && l == if Wrap64(v.Size(Plain)) <= bufSize then Plain else Internal(nents)
    ensures status == NoMemory <==> OutOfMemory(v, l, bufSize, tableOk, allocFails, slotFree)
    ensures status == Fault <==> status != NoMemory && exists i :: 0 <= i < |v.args| && i in faults
    ensures status == NoMemory ==> mem == mem0
    ensures status == Done ==> payload == size == Wrap64(v.Size(l)) && EntriesTo(v, l, rpra[..], |v.args|)
    ensures status == Done ==> outOff == Wrap32(v.Offset(l, v.inbufs))
    ensures status == Done ==> mem == Image(v, l, user, desc(l), mem0, v.Total()) && InnerRight(v, l, user, inner)
    ensures status == Done && v.Size(l) < WORD ==> MessageRight(v, l, user, desc(l), mem0, mem)
    ensures status == Done && v.Size(l) < (if l == Plain then WORD else U32) ==>
      v.Size(l) <= bufSize && outOff == v.Offset(l, v.inbufs) && WritesWithin(v.MetaLen(), bufSize, mem0, mem)
  {
    mem, payload, inner := mem0, 0, map[];
    var ok;
    ok, l, size, outOff := ChooseLayout(v, bufSize, nents, tableOk, allocFails, slotFree);
    if !ok {
      status := NoMemory;
      return;
    }
    var filled;
    filled, payload, mem, inner := Fill(v, l, user, desc(l), faults, mem0, rpra);
    status := if filled then Done else Fault;
    GrantedIsMessage(v, l, bufSize, user, desc(l), mem0);
  }

  /** What a granted message of small enough true size looks like. */
  lemma GrantedIsMessage(v: Invoke, l: Layout, bufSize: u32, user: nat -> byte, desc: nat -> seq<byte>, mem0: Memory)
    requires v.Valid() && Described(v, l, desc) && (l == Plain <==> TakesPlain(v, bufSize))
    requires MessageGranted(Wrap64(v.Size(l)), bufSize)
    ensures v.Size(l) < WORD ==> MessageRight(v, l, user, desc, mem0, Image(v, l, user, desc, mem0, v.Total()))
    ensures v.Size(l) < (if l == Plain then WORD else U32) ==>
      && v.Size(l) <= bufSize && Wrap32(v.Offset(l, v.inbufs)) == v.Offset(l, v.inbufs)
      && WritesWithin(v.MetaLen(), bufSize, mem0, Image(v, l, user, desc, mem0, v.Total()))
  {
    if v.Size(l) < WORD {
      ImageIsMessage(v, l, user, desc, mem0, v.Total());
      ImageIsRight(v, l, user, desc, mem0);
    }
    if v.Size(l) < (if l == Plain then WORD else U32) {
      GrantedStaysInsideIff(v, l, bufSize);
      ReservedInsideIffSize(v, l, bufSize);
      OutputOffsetFits(v, l);
    }
  }

  // ---------------------------------------------------------------------------------------
  // Two granted messages that leave their buffer
  // ---------------------------------------------------------------------------------------

  /** Three outputs whose lengths add up to 2^64 and the size of one descriptor. */
  const WRAPPING_CALL: Invoke := Invoke(
    [Arg(0, 0x8000_0000_0000_0000, None), Arg(0, 1, Some(Mapping(1, false))), Arg(0, 0x7fff_ffff_ffff_ffd0, None)],
    0, [], 4096)

  /** The plain layout is taken for a size of 650 bytes, and the descriptor goes 2^63 bytes behind the metadata. */
  lemma WrappingCallLeavesBuffer(bufSize: u32, user: nat -> byte, desc: nat -> seq<byte>, mem0: Memory)
    requires bufSize >= 650 && Described(WRAPPING_CALL, Plain, desc)
    ensures WRAPPING_CALL.Valid() && TakesPlain(WRAPPING_CALL, bufSize)
    ensures Wrap64(WRAPPING_CALL.Size(Plain)) == 650 && WRAPPING_CALL.Size(Plain) > WORD
    ensures MessageGranted(650, bufSize)
    ensures HoldsAt(Image(WRAPPING_CALL, Plain, user, desc, mem0, 3), 650 + 0x8000_0000_0000_0000, desc(1))
    ensures |desc(1)| == 48
  {
    var v := WRAPPING_CALL;
    assert v.MetaLen() == 650 && v.Total() == 3;
    assert v.Offset(Plain, 1) == 0x8000_0000_0000_0000;
    assert v.Offset(Plain, 2) == 0x8000_0000_0000_0030;
    assert DescribedAt(v, Plain, desc, 1);
    StoreHolds(Image(v, Plain, user, desc, mem0, 1), 650 + 0x8000_0000_0000_0000, desc(1));
    assert Image(v, Plain, user, desc, mem0, 3)
        == Image(v, Plain, user, desc, mem0, 2) + Stored(v.Cursor(Plain, 2), []);
  }

  /** One mapped argument of 2^28 scatterlist entries. */
  const LARGE_CALL: Invoke := Invoke([Arg(0, 1, Some(Mapping(0x1000_0000, false)))], 0, [], 4096)

  /** It is granted in the internal layout although its descriptor alone is larger than 2^32 bytes. */
  lemma LargeCallLeavesBuffer(bufSize: u32, user: nat -> byte, desc: nat -> seq<byte>, mem0: Memory)
    requires bufSize >= 602 && Described(LARGE_CALL, Internal([0]), desc)
    ensures LARGE_CALL.Valid() && !TakesPlain(LARGE_CALL, bufSize)
    ensures U32 < LARGE_CALL.Size(Internal([0])) < WORD && MessageGranted(LARGE_CALL.Size(Internal([0])), bufSize)
    ensures HoldsAt(Image(LARGE_CALL, Internal([0]), user, desc, mem0, 1), 570, desc(0)) && |desc(0)| > U32
  {
    var v, l := LARGE_CALL, Internal([0]);
    assert v.MetaLen() == 570 && v.Total() == 1;
    assert v.Offset(l, 1) == v.PayloadLen(l, 0) == U32 + 32;
    assert v.Offset(Plain, 1) == v.PayloadLen(Plain, 0) == U32 + 32;
    assert DescribedAt(v, l, desc, 0);
    StoreHolds(mem0, 570, desc(0));
  }

  // ---------------------------------------------------------------------------------------
  // Reading
  // ---------------------------------------------------------------------------------------

  /** Where a reader that adds up the payload lengths in the message finds entry i. */
  function Walk(meta: nat, rpra: seq<WireBuf>, i: nat): nat
    requires i <= |rpra|
  {
    if i == 0 then meta else Walk(meta, rpra, i - 1) + rpra[i - 1].payloadLen
  }

  /** What put_args copies to the user for output i: bytes of the response, or of an internal buffer. */
  datatype Source = FromMessage(at: nat, len: nat) | FromInternal(i: nat, len: nat) | FromMap

  /** What put_args does for output i of response `rsp`. */
  function OutputOf(v: Invoke, l: Layout, rsp: seq<WireBuf>, outOff: nat, i: nat): Source
    requires v.inbufs <= i < |v.args| <= |rsp|
  {
    if v.args[i].mapping.Some? then FromMap
    else if v.IsInternal(l, i) then FromInternal(i, v.args[i].len)
    else FromMessage(Wrap64(Walk(v.MetaLen() + outOff, rsp[v.inbufs..], i - v.inbufs)), rsp[i].bufLen)
  }

  /** The reader's walk starts at the outputs and so skips the lengths of the inputs. */
  lemma {:induction false} WalkFromOutputs(v: Invoke, l: Layout, rsp: seq<WireBuf>, outOff: nat, i: nat)
    requires v.Valid() && v.Fits(l) && v.inbufs <= i <= |v.args| <= |rsp| && EntriesTo(v, l, rsp, |v.args|)
    ensures Walk(v.MetaLen() + outOff, rsp[v.inbufs..], i - v.inbufs) + v.Offset(l, v.inbufs)
            == v.MetaLen() + outOff + v.Offset(l, i)
  {
    if i > v.inbufs {
      WalkFromOutputs(v, l, rsp, outOff, i - 1);
      assert EntryAt(v, l, rsp, i - 1);
    }
  }

  lemma InlineLen(v: Invoke, l: Layout, rsp: seq<WireBuf>, i: nat)
    requires v.Fits(l) && i < |v.args| <= |rsp| && EntriesTo(v, l, rsp, |v.args|)
    requires v.args[i].mapping.None? && !v.IsInternal(l, i)
    ensures rsp[i].bufLen == v.PayloadLen(l, i)
  {
    assert EntryAt(v, l, rsp, i);
  }

  /**
    When the backend preserves the payload lengths, put_args reads an inline output where get_args
    put its space if and only if the offset of the outputs, as a word, fits the 32-bit field that
    keeps it; it always reads as many bytes as were reserved.
   */
  lemma OutputsComeFromReservedIff(v: Invoke, l: Layout, rsp: seq<WireBuf>, i: nat)
    requires v.Valid() && v.Fits(l) && v.inbufs <= i < |v.args| <= |rsp| && EntriesTo(v, l, rsp, |v.args|)
    requires OutputOf(v, l, rsp, Wrap32(v.Offset(l, v.inbufs)), i).FromMessage?
    ensures var o := OutputOf(v, l, rsp, Wrap32(v.Offset(l, v.inbufs)), i);
      && (o.at == Wrap64(v.MetaLen() + v.Offset(l, i)) <==> Wrap64(v.Offset(l, v.inbufs)) < U32)
      && o.len == v.PayloadLen(l, i)
  {
    ReadsAt(v, l, rsp, i);
    InlineLen(v, l, rsp, i);
    SameWordIff(v.MetaLen() + (v.Offset(l, i) - v.Offset(l, v.inbufs)), v.Offset(l, v.inbufs));
  }

  lemma ReadsAt(v: Invoke, l: Layout, rsp: seq<WireBuf>, i: nat)
    requires v.Valid() && v.Fits(l) && v.inbufs <= i < |v.args| <= |rsp| && EntriesTo(v, l, rsp, |v.args|)
    ensures v.Offset(l, v.inbufs) <= v.Offset(l, i)
    ensures Walk(v.MetaLen() + Wrap32(v.Offset(l, v.inbufs)), rsp[v.inbufs..], i - v.inbufs)
            == v.MetaLen() + (v.Offset(l, i) - v.Offset(l, v.inbufs)) + Wrap32(v.Offset(l, v.inbufs))
  {
    WalkFromOutputs(v, l, rsp, Wrap32(v.Offset(l, v.inbufs)), i);
    OffsetGrows(v, l, v.inbufs, i);
  }

  lemma SameWordIff(rest: nat, base: nat)
    ensures Wrap64(rest + Wrap32(base)) == Wrap64(rest + base) <==> Wrap64(base) < U32
  {
    var w := Wrap64(base);
    WrapAdd(base, rest);
    ShiftChangesWord(rest + Wrap32(w), w - Wrap32(w));
  }

  lemma ShiftChangesWord(x: nat, d: nat)
    requires d < WORD
    ensures Wrap64(x) == Wrap64(x + d) <==> d == 0
  {
    if Wrap64(x) == Wrap64(x + d) {
      var q, q' := x / 0x1_0000_0000_0000_0000, (x + d) / 0x1_0000_0000_0000_0000;
      assert d == (q' - q) * 0x1_0000_0000_0000_0000;
    }
  }

  /** The space reserved for an entry ends before that of every later one, and so inside the message. */
  lemma {:induction false} ReservedIsInside(v: Invoke, l: Layout, i: nat, j: nat)
    requires v.Fits(l) && i < j <= v.Total()
    ensures v.Offset(l, i) + v.PayloadLen(l, i) <= v.Offset(l, j)
  {
    if i + 1 < j {
      ReservedIsInside(v, l, i, j - 1);
    }
  }

  /** A mapped input of 2^28 scatterlist entries and an inline output of 100 bytes. */
  const FAR_CALL: Invoke :=
    Invoke([Arg(0, 1, Some(Mapping(0x1000_0000, false))), Arg(0, 100, None)], 1, [], 4096)

  /** It is granted, and its output is read 2^32 bytes in front of the space reserved for it. */
  lemma FarOutputIsMisread(bufSize: u32, rsp: seq<WireBuf>)
    requires bufSize >= 742 && |rsp| == 2 && EntriesTo(FAR_CALL, Internal([0, 0]), rsp, 2)
    ensures var v, l := FAR_CALL, Internal([0, 0]);
      && v.Valid() && !TakesPlain(v, bufSize) && v.Fits(l) && MessageGranted(Wrap64(v.Size(l)), bufSize)
      && v.Offset(l, 1) == U32 + 32 && Wrap32(v.Offset(l, 1)) == 32
      && OutputOf(v, l, rsp, Wrap32(v.Offset(l, 1)), 1) == FromMessage(v.MetaLen() + 32, 100)
  {
    var v, l := FAR_CALL, Internal([0, 0]);
    assert v.MetaLen() == 610 && v.Total() == 2;
    assert v.Offset(l, 1) == v.PayloadLen(l, 0) == U32 + 32 && v.Offset(l, 2) == U32 + 132;
    assert v.Offset(Plain, 1) == v.PayloadLen(Plain, 0) == U32 + 32 && v.Offset(Plain, 2) == U32 + 132;
    assert EntryAt(v, l, rsp, 1);
  }

  function LenOf(src: Source): nat {
    if src.FromMap? then 0 else src.len
  }

  /** Byte k of a source, where `msg` is the message memory and `inner` that of the internal buffers. */
  function ByteOf(src: Source, msg: nat -> byte, inner: nat -> nat -> byte, k: nat): byte {
    match src
    case FromMessage(at, _) => msg(at + k)
    case FromInternal(i, _) => inner(i)(k)
    case FromMap => 0
  }

  /** A copy to the user address `to`. */
  datatype Copy = Copy(to: nat, from: Source)

  predicate Covers(c: Copy, x: int) {
    InSpan(x, c.to, LenOf(c.from))
  }

  /** The last copy to address x. */
  function LastCopy(copies: seq<Copy>, x: int): Option<Copy> {
    if copies == [] then None
    else if Covers(copies[|copies| - 1], x) then Some(copies[|copies| - 1])
    else LastCopy(copies[..|copies| - 1], x)
  }

  lemma {:induction false} LastCopyIs(copies: seq<Copy>, i: nat, x: int)
    requires i < |copies| && Covers(copies[i], x) && forall j :: i < j < |copies| ==> !Covers(copies[j], x)
    ensures LastCopy(copies, x) == Some(copies[i])
  {
    if i < |copies| - 1 {
      LastCopyIs(copies[..|copies| - 1], i, x);
    }
  }

  lemma {:induction false} LastCopyCovers(copies: seq<Copy>, x: int)
    ensures LastCopy(copies, x).None? <==> forall c <- copies :: !Covers(c, x)
    ensures LastCopy(copies, x).Some? ==> LastCopy(copies, x).value in copies && Covers(LastCopy(copies, x).value, x)
  {
    if copies != [] {
      LastCopyCovers(copies[..|copies| - 1], x);
      assert forall c :: c in copies <==> c in copies[..|copies| - 1] || c == copies[|copies| - 1];
    }
  }

  /** User memory at x after the copies: the byte of the last one to x, and what it was if there is none. */
  ghost predicate AddressRight(copies: seq<Copy>, msg: nat -> byte, inner: nat -> nat -> byte, user0: Memory,
                               user: Memory, x: int)
  {
    match LastCopy(copies, x)
    case None => SameAt(user0, user, x)
    case Some(c) => x in user && Covers(c, x) && user[x] == ByteOf(c.from, msg, inner, x - c.to)
  }

  ghost predicate UserRight(copies: seq<Copy>, msg: nat -> byte, inner: nat -> nat -> byte, user0: Memory,
                            user: Memory)
  {
    forall x: int :: AddressRight(copies, msg, inner, user0, user, x)
  }

  function CopiedOut(c: Copy, msg: nat -> byte, inner: nat -> nat -> byte): Memory {
    map x: int | c.to <= x < c.to + LenOf(c.from) && Covers(c, x) :: ByteOf(c.from, msg, inner, x - c.to)
  }

  lemma CopyStep(copies: seq<Copy>, c: Copy, msg: nat -> byte, inner: nat -> nat -> byte, user0: Memory, user: Memory)
    requires UserRight(copies, msg, inner, user0, user)
    ensures UserRight(copies + [c], msg, inner, user0, user + CopiedOut(c, msg, inner))
  {
    assert (copies + [c])[..|copies|] == copies;
    forall x: int | true
      ensures AddressRight(copies + [c], msg, inner, user0, user + CopiedOut(c, msg, inner), x)
    {
      assert AddressRight(copies, msg, inner, user0, user, x);
    }
  }

  /**
    The copy for output i: none if it has a map, and otherwise to the user's address, from its own
    internal buffer or from the place where the walk finds its entry.
   */
  ghost predicate CopyRight(v: Invoke, l: Layout, rsp: seq<WireBuf>, outOff: nat, i: nat, c: Copy)
    requires v.inbufs <= i < |v.args| <= |rsp|
  {
    && c.to == v.args[i].pv
    && (c.from.FromMap? <==> v.args[i].mapping.Some?)
    && (c.from.FromInternal? <==> v.args[i].mapping.None? && l.Internal? && v.args[i].len >= v.page)
    && (c.from.FromInternal? ==> c.from == FromInternal(i, v.args[i].len))
    && (c.from.FromMessage? ==> c.from == OutputOf(v, l, rsp, outOff, i))
  }

  ghost predicate CopiesRight(v: Invoke, l: Layout, rsp: seq<WireBuf>, outOff: nat, copies: seq<Copy>)
    requires |v.args| <= |rsp|
  {
    && v.inbufs + |copies| <= |v.args|
    && forall k :: 0 <= k < |copies| ==> CopyRight(v, l, rsp, outOff, v.inbufs + k, copies[k])
  }

  /** Which copy output i gets; `payload` is where the walk is. */
  method CopyFor(v: Invoke, l: Layout, rsp: seq<WireBuf>, ghost outOff: nat, payload: nat, i: nat) returns (c: Copy)
    requires v.inbufs <= i < |v.args| <= |rsp|
    requires payload == Wrap64(Walk(v.MetaLen() + outOff, rsp[v.inbufs..], i - v.inbufs))
    ensures CopyRight(v, l, rsp, outOff, i, c)
  {
    c := Copy(v.args[i].pv, FromMap);
    if v.args[i].mapping.None? {
      if l.Internal? && v.args[i].len >= v.page {
        c := c.(from := FromInternal(i, v.args[i].len));
      } else {
        c := c.(from := FromMessage(payload, rsp[i].bufLen));
      }
    }
  }

  /**
    put_args over the response `rsp`, whose entries the backend has filled in; the copy to the user
    fails for the outputs in `faults`.  User memory is right for the copies up to the one where it stops.
   */
  method PutArgs(v: Invoke, l: Layout, rsp: seq<WireBuf>, outOff: u32, msg: nat -> byte, inner: nat -> nat -> byte,
                 faults: set<nat>, user0: Memory)
    returns (ok: bool, copies: seq<Copy>, user: Memory)
    requires v.Valid() && v.Fits(l) && |v.args| <= |rsp|
    ensures ok <==> forall i :: v.inbufs <= i < |v.args| && v.args[i].mapping.None? ==> i !in faults
    ensures CopiesRight(v, l, rsp, outOff, copies) && (ok ==> v.inbufs + |copies| == |v.args|)
    ensures UserRight(copies, msg, inner, user0, user)
  {
    ok, copies, user := true, [], user0;
    var payload: nat := Wrap64(v.MetaLen() + outOff);
    var i := v.inbufs;
    while i < |v.args|
      invariant v.inbufs <= i <= |v.args| && |copies| == i - v.inbufs
      invariant payload == Wrap64(Walk(v.MetaLen() + outOff, rsp[v.inbufs..], i - v.inbufs))
      invariant forall k :: v.inbufs <= k < i && v.args[k].mapping.None? ==> k !in faults
      invariant CopiesRight(v, l, rsp, outOff, copies) && UserRight(copies, msg, inner, user0, user)
    {
      if v.args[i].mapping.None? && i in faults {
        ok := false;
        return;
      }
      var c := CopyFor(v, l, rsp, outOff, payload, i);
      CopyStep(copies, c, msg, inner, user0, user);
      copies, user := copies + [c], user + CopiedOut(c, msg, inner);
      WrapAdd(Walk(v.MetaLen() + outOff, rsp[v.inbufs..], i - v.inbufs), rsp[i].payloadLen);
      payload := Wrap64(payload + rsp[i].payloadLen);
      i := i + 1;
    }
  }

  lemma WrapOfSmall(x: nat)
    requires x < U32
    ensures Wrap64(x) == x
  {
  }

  lemma WalkInSmallMessage(v: Invoke, l: Layout, rsp: seq<WireBuf>, outOff: nat, i: nat)
    requires v.Valid() && v.Fits(l) && v.inbufs <= i < |v.args| <= |rsp| && EntriesTo(v, l, rsp, |v.args|)
    requires v.Size(l) < U32 && outOff == v.Offset(l, v.inbufs)
    ensures Wrap64(Walk(v.MetaLen() + outOff, rsp[v.inbufs..], i - v.inbufs)) == v.MetaLen() + v.Offset(l, i)
  {
    WalkFromOutputs(v, l, rsp, outOff, i);
    OffsetGrows(v, l, i, v.Total());
    WrapOfSmall(v.MetaLen() + v.Offset(l, i));
  }

  lemma EntryLen(v: Invoke, l: Layout, rsp: seq<WireBuf>, i: nat)
    requires v.Fits(l) && i < |v.args| <= |rsp| && EntriesTo(v, l, rsp, |v.args|)
    ensures rsp[i].bufLen == v.args[i].len
  {
    assert EntryAt(v, l, rsp, i);
  }

  lemma OutputReads(v: Invoke, l: Layout, rsp: seq<WireBuf>, outOff: nat, i: nat, at: nat)
    requires v.inbufs <= i < |v.args| <= |rsp| && v.args[i].mapping.None? && !v.IsInternal(l, i)
    requires Wrap64(Walk(v.MetaLen() + outOff, rsp[v.inbufs..], i - v.inbufs)) == at
    ensures OutputOf(v, l, rsp, outOff, i) == FromMessage(at, rsp[i].bufLen)
  {
  }

  /** The copy of an unmapped output when the backend preserves the entries of a message of 32-bit size. */
  lemma CopyFromReserved(v: Invoke, l: Layout, rsp: seq<WireBuf>, i: nat, c: Copy)
    requires v.Valid() && v.Fits(l) && v.inbufs <= i < |v.args| <= |rsp| && EntriesTo(v, l, rsp, |v.args|)
    requires v.Size(l) < U32 && v.args[i].mapping.None?
    requires CopyRight(v, l, rsp, Wrap32(v.Offset(l, v.inbufs)), i, c)
    ensures c == Copy(v.args[i].pv, if l.Internal? && v.args[i].len >= v.page then FromInternal(i, v.args[i].len)
                                    else FromMessage(v.MetaLen() + v.Offset(l, i), v.args[i].len))
  {
    if !v.IsInternal(l, i) {
      OutputOffsetFits(v, l);
      WalkInSmallMessage(v, l, rsp, v.Offset(l, v.inbufs), i);
      OutputReads(v, l, rsp, v.Offset(l, v.inbufs), i, v.MetaLen() + v.Offset(l, i));
      EntryLen(v, l, rsp, i);
    }
  }

  /** Argument j is mapped or does not contain x. */
  predicate Misses(v: Invoke, j: nat, x: int)
    requires j < |v.args|
  {
    v.args[j].mapping.Some? || !InSpan(x, v.args[j].pv, v.args[j].len)
  }

  lemma CopyMisses(v: Invoke, l: Layout, rsp: seq<WireBuf>, j: nat, c: Copy, x: int)
    requires v.Valid() && v.Fits(l) && v.inbufs <= j < |v.args| <= |rsp| && EntriesTo(v, l, rsp, |v.args|)
    requires v.Size(l) < U32 && CopyRight(v, l, rsp, Wrap32(v.Offset(l, v.inbufs)), j, c) && Misses(v, j, x)
    ensures !Covers(c, x)
  {
    if v.args[j].mapping.None? {
      CopyFromReserved(v, l, rsp, j, c);
    }
  }

  /** The copy of output i is the last one to an address of it that no later output covers. */
  lemma OutputIsLast(v: Invoke, l: Layout, rsp: seq<WireBuf>, copies: seq<Copy>, i: nat, x: int)
    requires v.Valid() && v.Fits(l) && v.inbufs <= i < |v.args| <= |rsp| && EntriesTo(v, l, rsp, |v.args|)
    requires v.Size(l) < U32 && v.args[i].mapping.None? && InSpan(x, v.args[i].pv, v.args[i].len)
    requires v.inbufs + |copies| == |v.args| && CopiesRight(v, l, rsp, Wrap32(v.Offset(l, v.inbufs)), copies)
    requires forall j :: i < j < |v.args| ==> Misses(v, j, x)
    ensures LastCopy(copies, x) == Some(copies[i - v.inbufs])
  {
    var n := i - v.inbufs;
    assert CopyRight(v, l, rsp, Wrap32(v.Offset(l, v.inbufs)), v.inbufs + n, copies[n]);
    CopyFromReserved(v, l, rsp, i, copies[n]);
    forall m | n < m < |copies| ensures !Covers(copies[m], x) {
      assert Misses(v, v.inbufs + m, x);
      CopyMisses(v, l, rsp, v.inbufs + m, copies[m], x);
    }
    LastCopyIs(copies, n, x);
  }

  /**
    What the user finds in an unmapped output, at an address that no later output covers, when the
    backend preserves the entries of a message of 32-bit size: byte for byte what the backend left in
    the output's own internal buffer, or in the space that get_args reserved for it.
   */
  lemma OutputArrives(v: Invoke, l: Layout, rsp: seq<WireBuf>, copies: seq<Copy>, msg: nat -> byte,
      inner: nat -> nat -> byte, user0: Memory, user: Memory, i: nat, x: int)
    requires v.Valid() && v.Fits(l) && v.inbufs <= i < |v.args| <= |rsp| && EntriesTo(v, l, rsp, |v.args|)
    requires v.Size(l) < U32 && v.args[i].mapping.None? && InSpan(x, v.args[i].pv, v.args[i].len)
    requires v.inbufs + |copies| == |v.args| && CopiesRight(v, l, rsp, Wrap32(v.Offset(l, v.inbufs)), copies)
    requires UserRight(copies, msg, inner, user0, user) && forall j :: i < j < |v.args| ==> Misses(v, j, x)
    ensures x in user
    ensures var k := x - v.args[i].pv;
      user[x] == if l.Internal? && v.args[i].len >= v.page then inner(i)(k) else msg(v.MetaLen() + v.Offset(l, i) + k)
  {
    OutputIsLast(v, l, rsp, copies, i, x);
    CopyFromReserved(v, l, rsp, i, copies[i - v.inbufs]);
    assert AddressRight(copies, msg, inner, user0, user, x);
  }

  /** Memory outside the unmapped outputs is left alone. */
  lemma OnlyOutputsAreWritten(v: Invoke, l: Layout, rsp: seq<WireBuf>, copies: seq<Copy>, msg: nat -> byte,
      inner: nat -> nat -> byte, user0: Memory, user: Memory, x: int)
    requires v.Valid() && v.Fits(l) && |v.args| <= |rsp| && EntriesTo(v, l, rsp, |v.args|) && v.Size(l) < U32
    requires CopiesRight(v, l, rsp, Wrap32(v.Offset(l, v.inbufs)), copies) && UserRight(copies, msg, inner, user0, user)
    requires forall j :: v.inbufs <= j < |v.args| ==> Misses(v, j, x)
    ensures SameAt(user0, user, x)
  {
    forall m | 0 <= m < |copies| ensures !Covers(copies[m], x) {
      assert Misses(v, v.inbufs + m, x);
      CopyMisses(v, l, rsp, v.inbufs + m, copies[m], x);
    }
    LastCopyCovers(copies, x);
    assert AddressRight(copies, msg, inner, user0, user, x);
  }
}

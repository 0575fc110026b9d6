/**
  Packing the buffer arguments that have no mapping: the measuring pass, the choice of buffer and
  the copying pass of the hybrid driver's get_args, over the overlap list of module Overlaps.

  That no write goes outside the chosen buffer is one of the theorems, not an assumption.
 */
module Packing {
  import opened Common
  import opened Overlaps
  import opened Pages

  const LONG_MAX: nat := 0x7fff_ffff_ffff_ffff

  /** A driver buffer: kernel address, device address, size. */
  datatype Buf = Buf(va: int, da: int, size: nat)

  /** struct smq_phy_page */
  datatype PhyPage = PhyPage(addr: int, size: int)

  datatype Status = Done | TooLong | NoMemory | NoSpace | CopyFault

  /**
    One call: the swept list in sorted order, the number of input arguments, and the arguments
    that have a mapping and are therefore not copied.
   */
  datatype Call = Call(q: seq<Overlap>, inbufs: nat, mapped: set<nat>) {

    ghost predicate Valid() {
      Swept(q, inbufs)
    }

    /** Both passes pass over empty and mapped arguments. */
    predicate Skip(k: nat)
      requires k < |q|
    {
      q[k].end == q[k].start || q[k].raix in mapped
    }

    function PieceLen(k: nat): int
      requires k < |q|
    {
      q[k].mend - q[k].mstart
    }

    /** Where argument k's piece goes when the cursor stands at `at`: a run starts aligned. */
    function Placed(k: nat, at: int): int
      requires k < |q|
    {
      if q[k].offset == 0 then Align(at) else at
    }

    /** The cursor before argument k, starting at `base`. */
    function Cursor(base: int, k: nat): int
      requires k <= |q|
    {
      if k == 0 then base
      else if Skip(k - 1) then Cursor(base, k - 1)
      else Placed(k - 1, Cursor(base, k - 1)) + PieceLen(k - 1)
    }

    /** The address that the copying pass gives argument k. */
    function Dst(base: int, k: nat): int
      requires k < |q|
    {
      Placed(k, Cursor(base, k)) - q[k].offset
    }

    function Len(k: nat): int
      requires k < |q|
    {
      q[k].end - q[k].start
    }

    /** Kernel memory after the first k arguments. */
    function Image(base: int, user: nat -> byte, mem: Memory, k: nat): Memory
      requires k <= |q|
    {
      if k == 0 then mem
      else
        var m := Image(base, user, mem, k - 1);
        if Skip(k - 1) || q[k - 1].raix >= inbufs then m
        else m + Copied(user, q[k - 1].start, Dst(base, k - 1), Len(k - 1))
    }

    ghost predicate Names(n: nat) {
      && (forall k :: 0 <= k < |q| ==> q[k].raix < n)
      && (forall j, k :: 0 <= j < k < |q| ==> q[j].raix != q[k].raix)
    }
  }

  function Copied(user: nat -> byte, src: nat, dst: int, len: int): Memory {
    map a | dst <= a < dst + len && InSpan(a, dst, len) :: user(src + (a - dst))
  }

  // ---------------------------------------------------------------------------------------
  // The cursor
  // ---------------------------------------------------------------------------------------

  lemma PieceFacts(c: Call, k: nat)
    requires c.Valid() && k < |c.q|
    ensures 0 <= c.PieceLen(k) <= c.Len(k)
    ensures c.q[k].offset == 0 <==> Leads(c.q, k)
    ensures Leads(c.q, k) ==> c.PieceLen(k) == c.Len(k) && MaxEnd(c.q, k + 1) == c.q[k].end
    ensures !Leads(c.q, k) ==> c.q[k].offset == MaxEnd(c.q, k) - c.q[k].start
    ensures !Leads(c.q, k) ==> MaxEnd(c.q, k + 1) == MaxEnd(c.q, k) + c.PieceLen(k)
    ensures !Leads(c.q, k) ==> c.Len(k) <= c.q[k].offset + c.PieceLen(k)
  {
    assert IsCut(c.q, k, c.inbufs);
  }

  lemma {:induction false} CursorGrows(c: Call, base: int, j: nat, k: nat)
    requires c.Valid() && j <= k <= |c.q|
    ensures c.Cursor(base, j) <= c.Cursor(base, k)
  {
    if j < k {
      CursorGrows(c, base, j, k - 1);
      PieceFacts(c, k - 1);
      AlignFacts(c.Cursor(base, k - 1));
    }
  }

  /** Starting later never makes the cursor arrive earlier. */
  lemma {:induction false} CursorMono(c: Call, base: int, base': int, k: nat)
    requires k <= |c.q| && base <= base'
    ensures c.Cursor(base, k) <= c.Cursor(base', k)
  {
    if k > 0 {
      CursorMono(c, base, base', k - 1);
      AlignMono(c.Cursor(base, k - 1), c.Cursor(base', k - 1));
    }
  }

  /** Offsets from zero and addresses from an aligned base advance together. */
  lemma {:induction false} CursorShift(c: Call, b: int, base: int, k: nat)
    requires k <= |c.q| && b % BALIGN == 0
    ensures c.Cursor(b + base, k) == b + c.Cursor(base, k)
  {
    if k > 0 {
      CursorShift(c, b, base, k - 1);
      AlignShift(b, c.Cursor(base, k - 1));
    }
  }

  /**
    The two passes agree for every pattern of mappings: packed behind the metadata the copying pass
    ends within the measured total, and in a buffer of its own exactly at it.
   */
  lemma PassesAgree(c: Call, va: int, metalen: nat)
    requires c.Valid() && va % BALIGN == 0
    ensures c.Cursor(va + metalen, |c.q|) <= va + Align(metalen) + c.Cursor(0, |c.q|)
    ensures c.Cursor(va, |c.q|) == va + c.Cursor(0, |c.q|)
  {
    AlignFacts(metalen);
    CursorMono(c, va + metalen, va + Align(metalen), |c.q|);
    CursorShift(c, va + Align(metalen), 0, |c.q|);
    CursorShift(c, va, 0, |c.q|);
  }

  lemma CursorStep(c: Call, base: int, k: nat)
    requires c.Valid() && k < |c.q| && !c.Skip(k)
    ensures c.Cursor(base, k) <= c.Placed(k, c.Cursor(base, k))
    ensures c.Cursor(base, k + 1) == c.Placed(k, c.Cursor(base, k)) + c.PieceLen(k)
    ensures c.Dst(base, k) + c.Len(k) <= c.Cursor(base, k + 1)
    ensures Leads(c.q, k) ==> c.Dst(base, k) == Align(c.Cursor(base, k)) >= c.Cursor(base, k)
  {
    PieceFacts(c, k);
    AlignFacts(c.Cursor(base, k));
  }

  // ---------------------------------------------------------------------------------------
  // When the placement is right
  // ---------------------------------------------------------------------------------------

  /** A mapped argument claims a piece of user space that the cursor does not account for. */
  predicate Gap(c: Call, j: nat)
    requires j < |c.q|
  {
    c.q[j].raix in c.mapped && c.PieceLen(j) > 0
  }

  ghost predicate Obstructs(c: Call, j: nat, k: nat)
    requires j < |c.q| && k < |c.q|
  {
    j < k && SameRun(c.q, j, k) && Gap(c, j) && !c.Skip(k)
  }

  /** No run has a mapped argument with a piece of its own before an argument that is copied. */
  ghost predicate Separable(c: Call) {
    forall j, k :: 0 <= j < |c.q| && 0 <= k < |c.q| ==> !Obstructs(c, j, k)
  }

  ghost predicate StaysInRun(c: Call, base: int, k: nat)
    requires k < |c.q|
  {
    c.Skip(k) || c.Dst(base, k) >= c.Cursor(base, Leader(c.q, k))
  }

  ghost predicate KeepsDisplacement(c: Call, base: int, j: nat, k: nat)
    requires j < |c.q| && k < |c.q|
  {
    SameRun(c.q, j, k) && !c.Skip(j) && !c.Skip(k)
    ==> c.Dst(base, k) - c.Dst(base, j) == c.q[k].start - c.q[j].start
  }

  /**
    The placement the driver relies on: an argument never reaches below the space of its own run,
    and arguments of one run keep their user-space displacement.
   */
  ghost predicate PlacementRight(c: Call, base: int) {
    && (forall k :: 0 <= k < |c.q| ==> StaysInRun(c, base, k))
    && (forall j, k :: 0 <= j < |c.q| && 0 <= k < |c.q| ==> KeepsDisplacement(c, base, j, k))
  }

  /** Piece lengths of the mapped arguments in [l, k). */
  function GapSum(c: Call, l: nat, k: nat): int
    requires l <= k <= |c.q|
  {
    if l == k then 0
    else GapSum(c, l, k - 1) + if c.q[k - 1].raix in c.mapped then c.PieceLen(k - 1) else 0
  }

  lemma {:induction false} GapSumFacts(c: Call, l: nat, k: nat, j: nat)
    requires c.Valid() && l <= k <= |c.q|
    ensures GapSum(c, l, k) >= 0
    ensures l <= j < k && Gap(c, j) ==> GapSum(c, l, k) > 0
    ensures (forall i :: l <= i < k ==> !Gap(c, i)) ==> GapSum(c, l, k) == 0
  {
    if l < k {
      GapSumFacts(c, l, k - 1, j);
      PieceFacts(c, k - 1);
      var last := Gap(c, k - 1);
    }
  }

  lemma CursorInRun(c: Call, base: int, l: nat, k: nat)
    requires c.Valid() && l < k < |c.q| && !Leads(c.q, k)
    ensures c.Cursor(base, k + 1) == c.Cursor(base, k) + if c.Skip(k) then 0 else c.PieceLen(k)
    ensures MaxEnd(c.q, k + 1) == MaxEnd(c.q, k) + c.PieceLen(k)
    ensures GapSum(c, l, k + 1) == GapSum(c, l, k) + if c.q[k].raix in c.mapped then c.PieceLen(k) else 0
    ensures c.Skip(k) && c.q[k].raix !in c.mapped ==> c.PieceLen(k) == 0
  {
    PieceFacts(c, k);
  }

  /** Inside a run whose first argument is copied, the cursor lags by exactly the mapped pieces. */
  lemma {:induction false} RunCursor(c: Call, base: int, l: nat, k: nat)
    requires c.Valid() && l < k <= |c.q| && Leads(c.q, l) && !c.Skip(l)
    requires forall i :: l < i < k ==> !Leads(c.q, i)
    ensures c.Cursor(base, k) == c.Dst(base, l) + (MaxEnd(c.q, k) - c.q[l].start) - GapSum(c, l, k)
  {
    if l + 1 < k {
      RunCursor(c, base, l, k - 1);
      CursorInRun(c, base, l, k - 1);
    } else {
      PieceFacts(c, l);
      CursorStep(c, base, l);
      assert GapSum(c, l, l) == 0;
    }
  }

  /** An empty argument that leads is a run of its own. */
  lemma EmptyLeaderIsAlone(c: Call, k: nat)
    requires c.Valid() && k < |c.q| && Leader(c.q, k) < k
    ensures c.Len(Leader(c.q, k)) > 0
  {
    var l := Leader(c.q, k);
    LeaderLeads(c.q, k);
    PieceFacts(c, l);
    assert !Leads(c.q, l + 1);
    assert OverlapCmp(c.q[l], c.q[l + 1]) <= 0;
  }

  /** Where a copied argument lands, relative to the copied argument that opens its run. */
  lemma DstInRun(c: Call, base: int, k: nat)
    requires c.Valid() && k < |c.q| && !c.Skip(k) && !c.Skip(Leader(c.q, k))
    ensures c.Dst(base, k) == c.Dst(base, Leader(c.q, k)) + (c.q[k].start - c.q[Leader(c.q, k)].start)
                              - GapSum(c, Leader(c.q, k), k)
  {
    var l := Leader(c.q, k);
    LeaderLeads(c.q, k);
    PieceFacts(c, k);
    if l < k {
      assert !Leads(c.q, k);
      RunCursor(c, base, l, k);
      assert c.Dst(base, k) == c.Cursor(base, k) - (MaxEnd(c.q, k) - c.q[k].start);
    } else {
      assert GapSum(c, l, l) == 0;
    }
  }

  lemma SeparableLeaderIsCopied(c: Call, k: nat)
    requires c.Valid() && Separable(c) && k < |c.q| && !c.Skip(k)
    ensures !c.Skip(Leader(c.q, k)) && GapSum(c, Leader(c.q, k), k) == 0
  {
    var l := Leader(c.q, k);
    LeaderLeads(c.q, k);
    if l < k {
      EmptyLeaderIsAlone(c, k);
      PieceFacts(c, l);
      forall i | l <= i < k ensures !Gap(c, i) {
        LeaderInside(c.q, i, k);
        assert !Obstructs(c, i, k);
      }
    }
    GapSumFacts(c, l, k, l);
  }

  lemma SeparableStays(c: Call, base: int, k: nat)
    requires c.Valid() && Separable(c) && k < |c.q| && !c.Skip(k)
    ensures var l := Leader(c.q, k);
      && c.Dst(base, k) == c.Dst(base, l) + (c.q[k].start - c.q[l].start)
      && c.Dst(base, k) >= c.Cursor(base, l)
  {
    var l := Leader(c.q, k);
    SeparableLeaderIsCopied(c, k);
    LeaderLeads(c.q, k);
    DstInRun(c, base, k);
    CursorStep(c, base, l);
    assert l == k || OverlapCmp(c.q[l], c.q[k]) <= 0;
  }

  /** The first copied argument of a run that a mapped argument opens lands below the run's space. */
  lemma {:induction false} MappedLeaderMisplaces(c: Call, base: int, k: nat)
    requires c.Valid() && k < |c.q| && !c.Skip(k) && c.Skip(Leader(c.q, k))
    ensures exists i :: 0 <= i <= k && !StaysInRun(c, base, i)
  {
    var l := Leader(c.q, k);
    LeaderLeads(c.q, k);
    var i := l;
    while c.Skip(i)
      invariant l <= i <= k && c.Cursor(base, i) == c.Cursor(base, l)
      decreases k - i
    {
      i := i + 1;
    }
    LeaderInside(c.q, i, k);
    PieceFacts(c, i);
    assert !StaysInRun(c, base, i);
  }

  /** An obstructed argument is misplaced, by the size of the gap or by falling below its run. */
  lemma ObstructionMisplaces(c: Call, base: int, j: nat, k: nat)
    requires c.Valid() && j < |c.q| && k < |c.q| && Obstructs(c, j, k)
    ensures !PlacementRight(c, base)
  {
    var l := Leader(c.q, k);
    if c.Skip(l) {
      MappedLeaderMisplaces(c, base, k);
    } else {
      DstInRun(c, base, k);
      GapSumFacts(c, l, k, j);
      LeaderLeads(c.q, k);
      LeaderInside(c.q, l, k);
      assert !KeepsDisplacement(c, base, l, k);
    }
  }

  /** The placement is right exactly when no mapped piece precedes a copied argument of its run. */
  lemma PlacementRightIffSeparable(c: Call, base: int)
    requires c.Valid()
    ensures PlacementRight(c, base) <==> Separable(c)
  {
    if Separable(c) {
      forall k | 0 <= k < |c.q| ensures StaysInRun(c, base, k) {
        if !c.Skip(k) {
          SeparableStays(c, base, k);
        }
      }
      forall j, k | 0 <= j < |c.q| && 0 <= k < |c.q| ensures KeepsDisplacement(c, base, j, k) {
        if SameRun(c.q, j, k) && !c.Skip(j) && !c.Skip(k) {
          SeparableStays(c, base, j);
          SeparableStays(c, base, k);
        }
      }
    } else {
      var j, k :| 0 <= j < |c.q| && 0 <= k < |c.q| && Obstructs(c, j, k);
      ObstructionMisplaces(c, base, j, k);
    }
  }

  /** A mapped argument opens a run and a copied one follows: the copy lands below the data area. */
  lemma MixedRunExample(base: int) returns (c: Call)
    ensures c.Valid() && |c.q| == 2 && 0 in c.mapped && 1 !in c.mapped && !PlacementRight(c, base)
    ensures c.Dst(base, 1) == base - 50
  {
    var first := Overlap(4096, 4196, 0, 4096, 4196, 0, false);
    var second := Overlap(4146, 4246, 1, 4196, 4246, 50, false);
    c := Call([first, second], 2, {0});
    assert MaxEnd(c.q, 0) == 0 && MaxEnd(c.q, 1) == 4196;
    assert IsCut(c.q, 0, 2) && IsCut(c.q, 1, 2);
    assert Leader(c.q, 1) == Leader(c.q, 0) == 0;
    assert c.Cursor(base, 1) == c.Cursor(base, 0) == base;
    assert !StaysInRun(c, base, 1);
  }

  // ---------------------------------------------------------------------------------------
  // The memory image
  // ---------------------------------------------------------------------------------------

  /** Destinations of different runs are disjoint and in order. */
  lemma RunsLandApart(c: Call, base: int, j: nat, k: nat)
    requires c.Valid() && Separable(c) && j < k < |c.q| && !c.Skip(j) && !c.Skip(k) && !SameRun(c.q, j, k)
    ensures c.Dst(base, j) + c.Len(j) <= c.Dst(base, k)
  {
    RunsAreApart(c.q, c.inbufs, j, k);
    CursorStep(c, base, j);
    CursorGrows(c, base, j + 1, Leader(c.q, k));
    SeparableStays(c, base, k);
  }

  /** In every call, mixed runs or not, a destination ends at or before the final cursor. */
  lemma DstEndsInside(c: Call, base: int, k: nat)
    requires c.Valid() && k < |c.q| && !c.Skip(k)
    ensures c.Dst(base, k) + c.Len(k) <= c.Cursor(base, k + 1) <= c.Cursor(base, |c.q|)
  {
    CursorStep(c, base, k);
    CursorGrows(c, base, k + 1, |c.q|);
  }

  /** Every destination lies between the first address of the data area and the final cursor. */
  lemma DstInside(c: Call, base: int, k: nat)
    requires c.Valid() && Separable(c) && k < |c.q| && !c.Skip(k)
    ensures base <= c.Dst(base, k) && c.Dst(base, k) + c.Len(k) <= c.Cursor(base, |c.q|)
  {
    SeparableStays(c, base, k);
    CursorGrows(c, base, 0, Leader(c.q, k));
    DstEndsInside(c, base, k);
  }

  lemma {:induction false} CursorStands(c: Call, base: int, l: nat, k: nat)
    requires l <= k <= |c.q| && forall i :: l <= i < k ==> c.Skip(i)
    ensures c.Cursor(base, k) == c.Cursor(base, l)
  {
    if l < k {
      CursorStands(c, base, l, k - 1);
    }
  }

  /**
    The first copied argument of a run that a mapped argument opens always lands below the space of
    its run, by its offset, and so below the data area if and only if what earlier runs have used is
    less than that offset; it always does when they have used nothing.
   */
  lemma FirstCopyOfMixedRun(c: Call, base: int, k: nat)
    requires c.Valid() && k < |c.q| && !c.Skip(k)
    requires forall i :: Leader(c.q, k) <= i < k ==> c.Skip(i)
    requires Leader(c.q, k) < k
    ensures c.q[k].offset > 0
    ensures c.Dst(base, k) == c.Cursor(base, Leader(c.q, k)) - c.q[k].offset
    ensures c.Dst(base, k) < base <==> c.Cursor(base, Leader(c.q, k)) - base < c.q[k].offset
    ensures c.Cursor(base, Leader(c.q, k)) == base ==> c.Dst(base, k) < base
  {
    LeaderLeads(c.q, k);
    PieceFacts(c, k);
    CursorStands(c, base, Leader(c.q, k), k);
  }

  /** A later copy lands below the data area exactly when the mapped pieces in front of it outweigh its place. */
  lemma LandsBelowIff(c: Call, base: int, k: nat)
    requires c.Valid() && k < |c.q| && !c.Skip(k) && !c.Skip(Leader(c.q, k))
    ensures var l := Leader(c.q, k);
      c.Dst(base, k) < base <==> GapSum(c, l, k) > (c.Dst(base, l) - base) + (c.q[k].start - c.q[l].start)
  {
    DstInRun(c, base, k);
  }

  predicate IsCopiedInput(c: Call, j: nat)
    requires j < |c.q|
  {
    !c.Skip(j) && c.q[j].raix < c.inbufs
  }

  /** The copy of argument j from user space fails. */
  predicate Faults(c: Call, faults: set<nat>, j: nat)
    requires j < |c.q|
  {
    IsCopiedInput(c, j) && c.q[j].raix in faults
  }

  /** `len` bytes from `dst` on are the user's bytes from `src` on. */
  ghost predicate HoldsBytes(user: nat -> byte, m: Memory, src: nat, dst: int, len: int) {
    forall a :: dst <= a < dst + len ==> a in m && m[a] == user(src + (a - dst))
  }

  /** The destination of argument j holds the user's bytes. */
  ghost predicate Holds(c: Call, base: int, user: nat -> byte, m: Memory, j: nat)
    requires j < |c.q|
  {
    HoldsBytes(user, m, c.q[j].start, c.Dst(base, j), c.Len(j))
  }

  lemma CopyKeepsHeldInRun(c: Call, base: int, user: nat -> byte, m: Memory, j: nat, k: nat)
    requires c.Valid() && Separable(c) && j < k < |c.q| && !c.Skip(k) && IsCopiedInput(c, j) && SameRun(c.q, j, k)
    requires Holds(c, base, user, m, j)
    ensures Holds(c, base, user, m + Copied(user, c.q[k].start, c.Dst(base, k), c.Len(k)), j)
  {
    SeparableStays(c, base, j);
    SeparableStays(c, base, k);
    CopyAgrees(user, m, c.q[j].start, c.Dst(base, j), c.Len(j), c.q[k].start, c.Dst(base, k), c.Len(k));
  }

  lemma CopyKeepsHeldApart(c: Call, base: int, user: nat -> byte, m: Memory, j: nat, k: nat)
    requires c.Valid() && Separable(c) && j < k < |c.q| && !c.Skip(k) && IsCopiedInput(c, j) && !SameRun(c.q, j, k)
    requires Holds(c, base, user, m, j)
    ensures Holds(c, base, user, m + Copied(user, c.q[k].start, c.Dst(base, k), c.Len(k)), j)
  {
    RunsLandApart(c, base, j, k);
    CopyAgrees(user, m, c.q[j].start, c.Dst(base, j), c.Len(j), c.q[k].start, c.Dst(base, k), c.Len(k));
  }

  /** A second copy keeps the bytes of the first if the two are apart or shifted alike. */
  lemma CopyAgrees(user: nat -> byte, m: Memory, src: nat, dst: int, len: int, src': nat, dst': int, len': int)
    requires HoldsBytes(user, m, src, dst, len)
    requires dst + len <= dst' || dst' - dst == src' - src
    ensures HoldsBytes(user, m + Copied(user, src', dst', len'), src, dst, len)
  {
  }

  /** Writing argument k leaves every earlier argument's bytes right, also where the two overlap. */
  lemma CopyKeepsHeld(c: Call, base: int, user: nat -> byte, m: Memory, j: nat, k: nat)
    requires c.Valid() && Separable(c) && j < k < |c.q| && !c.Skip(k) && IsCopiedInput(c, j)
    requires Holds(c, base, user, m, j)
    ensures Holds(c, base, user, m + Copied(user, c.q[k].start, c.Dst(base, k), c.Len(k)), j)
  {
    if SameRun(c.q, j, k) {
      CopyKeepsHeldInRun(c, base, user, m, j, k);
    } else {
      CopyKeepsHeldApart(c, base, user, m, j, k);
    }
  }

  lemma CopyHolds(user: nat -> byte, m: Memory, src: nat, dst: int, len: int)
    ensures HoldsBytes(user, m + Copied(user, src, dst, len), src, dst, len)
  {
  }

  lemma ImageLastHolds(c: Call, base: int, user: nat -> byte, mem: Memory, j: nat)
    requires j < |c.q| && IsCopiedInput(c, j)
    ensures Holds(c, base, user, c.Image(base, user, mem, j + 1), j)
  {
    CopyHolds(user, c.Image(base, user, mem, j), c.q[j].start, c.Dst(base, j), c.Len(j));
  }

  lemma ImageStepHolds(c: Call, base: int, user: nat -> byte, mem: Memory, k: nat, j: nat)
    requires c.Valid() && Separable(c) && j < k < |c.q| && IsCopiedInput(c, j)
    requires Holds(c, base, user, c.Image(base, user, mem, k), j)
    ensures Holds(c, base, user, c.Image(base, user, mem, k + 1), j)
  {
    if IsCopiedInput(c, k) {
      CopyKeepsHeld(c, base, user, c.Image(base, user, mem, k), j, k);
    }
  }

  /** After the copying pass every copied input has its bytes. */
  lemma {:induction false} ImageHolds(c: Call, base: int, user: nat -> byte, mem: Memory, k: nat, j: nat)
    requires c.Valid() && Separable(c) && j < k <= |c.q| && IsCopiedInput(c, j)
    ensures Holds(c, base, user, c.Image(base, user, mem, k), j)
  {
    if j < k - 1 {
      ImageHolds(c, base, user, mem, k - 1, j);
      ImageStepHolds(c, base, user, mem, k - 1, j);
    } else {
      ImageLastHolds(c, base, user, mem, j);
    }
  }

  /** Nothing outside the data area changes; the metadata in front of it stays as it was. */
  lemma {:induction false} ImageFrame(c: Call, base: int, user: nat -> byte, mem: Memory, k: nat, a: int)
    requires c.Valid() && Separable(c) && k <= |c.q| && !(base <= a < c.Cursor(base, |c.q|))
    ensures a in c.Image(base, user, mem, k) <==> a in mem
    ensures a in mem ==> c.Image(base, user, mem, k)[a] == mem[a]
  {
    if k > 0 {
      ImageFrame(c, base, user, mem, k - 1, a);
      if !c.Skip(k - 1) {
        DstInside(c, base, k - 1);
      }
    }
  }

  /** Address a is in the space of argument j, an input that is copied. */
  predicate InCopy(c: Call, base: int, j: nat, a: int)
    requires j < |c.q|
  {
    c.q[j].raix !in c.mapped && c.q[j].raix < c.inbufs && InSpan(a, c.Dst(base, j), c.Len(j))
  }

  /** In every call, mixed runs or not, the copies write the space of copied inputs and nothing else. */
  lemma {:induction false} OnlyInputsAreWritten(c: Call, base: int, user: nat -> byte, mem: Memory, k: nat, a: int)
    requires k <= |c.q| && forall j :: 0 <= j < k ==> !InCopy(c, base, j, a)
    ensures SameAt(mem, c.Image(base, user, mem, k), a)
  {
    if k > 0 {
      OnlyInputsAreWritten(c, base, user, mem, k - 1, a);
      assert !InCopy(c, base, k - 1, a);
    }
  }

  /** An argument that opens a run lands on a multiple of BALIGN. */
  lemma LeaderIsAligned(c: Call, base: int, k: nat)
    requires c.Valid() && k < |c.q| && !c.Skip(k) && Leads(c.q, k)
    ensures c.Dst(base, k) % BALIGN == 0
  {
    CursorStep(c, base, k);
    AlignFacts(c.Cursor(base, k));
  }

  // ---------------------------------------------------------------------------------------
  // The passes
  // ---------------------------------------------------------------------------------------

  /** First pass: the length required for copying, unless it exceeds LONG_MAX. */
  method CopyLen(c: Call) returns (r: Option<nat>)
    requires c.Valid()
    ensures r.Some? <==> c.Cursor(0, |c.q|) <= LONG_MAX
    ensures r.Some? ==> r.value == c.Cursor(0, |c.q|)
  {
    var copylen: nat := 0;
    var oix := 0;
    while oix < |c.q|
      invariant oix <= |c.q| && copylen == c.Cursor(0, oix) <= LONG_MAX
    {
      PieceFacts(c, oix);
      AlignFacts(copylen);
      if !c.Skip(oix) {
        if c.q[oix].offset == 0 {
          copylen := Align(copylen);
        }
        var templen := c.q[oix].mend - c.q[oix].mstart;
        if !(templen <= LONG_MAX && copylen <= LONG_MAX - templen) {
          CursorGrows(c, 0, oix + 1, |c.q|);
          return None;
        }
        copylen := copylen + templen;
      }
      oix := oix + 1;
    }
    r := Some(copylen);
  }

  /** Argument i gets its address and descriptor from the copying pass. */
  predicate IsPacked(c: Call, i: nat) {
    exists k :: 0 <= k < |c.q| && !c.Skip(k) && c.q[k].raix == i
  }

  /** All other entries are as they were. */
  ghost predicate KeepsRest(c: Call, rpra0: seq<int>, pages0: seq<PhyPage>, rpra: seq<int>, pages: seq<PhyPage>) {
    && |rpra| == |rpra0| == |pages| == |pages0|
    && forall i :: 0 <= i < |rpra| && !IsPacked(c, i) ==> rpra[i] == rpra0[i] && pages[i] == pages0[i]
  }

  /** What the copying pass leaves for argument k. */
  ghost predicate Described(c: Call, base: int, buf: Buf, page: nat, k: nat, pv: int, pg: PhyPage)
    requires k < |c.q| && page > 0
  {
    c.Skip(k) || (&& pv == c.Dst(base, k)
                  && pg.addr == BufPageStart(buf.da + (pv - buf.va), page)
                  && pg.size == BufNumPages(pv, c.Len(k), page) * page)
  }

  ghost predicate DescribedTo(c: Call, base: int, buf: Buf, page: nat, n: nat, rpra: seq<int>, pages: seq<PhyPage>)
    requires n <= |c.q| && page > 0
  {
    && |rpra| == |pages| && c.Names(|rpra|)
    && forall k :: 0 <= k < n ==> DescribedAt(c, base, buf, page, k, rpra, pages)
  }

  ghost predicate DescribedAt(c: Call, base: int, buf: Buf, page: nat, k: nat, rpra: seq<int>, pages: seq<PhyPage>)
    requires k < |c.q| && page > 0 && |rpra| == |pages| && c.Names(|rpra|)
  {
    Described(c, base, buf, page, k, rpra[c.q[k].raix], pages[c.q[k].raix])
  }

  lemma DescribeOne(c: Call, base: int, buf: Buf, page: nat, n: nat, rpra: seq<int>, pages: seq<PhyPage>, pv: int,
      pg: PhyPage)
    requires page > 0 && n < |c.q| && DescribedTo(c, base, buf, page, n, rpra, pages)
    requires Described(c, base, buf, page, n, pv, pg)
    ensures DescribedTo(c, base, buf, page, n + 1, rpra[c.q[n].raix := pv], pages[c.q[n].raix := pg])
  {
    var i := c.q[n].raix;
    var rpra', pages' := rpra[i := pv], pages[i := pg];
    forall k | 0 <= k < n + 1 ensures DescribedAt(c, base, buf, page, k, rpra', pages') {
      if k < n {
        assert DescribedAt(c, base, buf, page, k, rpra, pages);
      }
    }
  }

  lemma DescribeSkipped(c: Call, base: int, buf: Buf, page: nat, n: nat, rpra: seq<int>, pages: seq<PhyPage>)
    requires page > 0 && n < |c.q| && c.Skip(n) && DescribedTo(c, base, buf, page, n, rpra, pages)
    ensures DescribedTo(c, base, buf, page, n + 1, rpra, pages)
  {
  }

  /** Place one argument of the copying pass: `args` is the cursor, `rlen` the room left. */
  method PlaceOne(c: Call, k: nat, args0: int, args: int, rlen: nat, totallen: nat, copybuf: Buf, page: nat)
    returns (fits: bool, pv: int, pg: PhyPage, args': int, rlen': int)
    requires c.Valid() && page > 0 && k < |c.q| && !c.Skip(k)
    requires args == c.Cursor(args0, k) && args - copybuf.va == totallen - rlen
    requires c.Cursor(args0, k + 1) <= args + rlen
    ensures fits && Described(c, args0, copybuf, page, k, pv, pg) && pv == c.Dst(args0, k)
    ensures args' == c.Cursor(args0, k + 1) && args' + rlen' == args + rlen
  {
    CursorStep(c, args0, k);
    args', rlen' := args, rlen;
    var o := c.q[k];
    if o.offset == 0 {
      rlen' := rlen' - (Align(args') - args');
      args' := Align(args');
    }
    var mlen := o.mend - o.mstart;
    fits := rlen' >= mlen;
    pv := args' - o.offset;
    var addr := copybuf.da - o.offset + (totallen - rlen');
    pg := PhyPage(BufPageStart(addr, page), BufNumPages(pv, o.end - o.start, page) * page);
    args' := args' + mlen;
    rlen' := rlen' - mlen;
  }

  /** One iteration of the copying pass up to the copy itself. */
  method DescribeNext(c: Call, k: nat, args0: int, args: int, rlen: nat, totallen: nat, copybuf: Buf, page: nat,
                      rpra: array<int>, pages: array<PhyPage>)
    returns (fits: bool, args': int, rlen': int)
    requires c.Valid() && page > 0 && k < |c.q| && rpra.Length == pages.Length
    requires DescribedTo(c, args0, copybuf, page, k, rpra[..], pages[..])
    requires args == c.Cursor(args0, k) && args - copybuf.va == totallen - rlen
    requires c.Cursor(args0, |c.q|) <= args + rlen
    modifies rpra, pages
    ensures fits && DescribedTo(c, args0, copybuf, page, k + 1, rpra[..], pages[..])
    ensures args' == c.Cursor(args0, k + 1) && args' + rlen' == args + rlen && rlen' >= 0
    ensures !c.Skip(k) ==> rpra[c.q[k].raix] == c.Dst(args0, k)
    ensures KeepsRest(c, old(rpra[..]), old(pages[..]), rpra[..], pages[..])
  {
    ghost var was, wasPages := rpra[..], pages[..];
    CursorGrows(c, args0, k + 1, |c.q|);
    fits, args', rlen' := true, args, rlen;
    if c.Skip(k) {
      DescribeSkipped(c, args0, copybuf, page, k, was, wasPages);
    } else {
      var i := c.q[k].raix;
      var pv, pg;
      fits, pv, pg, args', rlen' := PlaceOne(c, k, args0, args, rlen, totallen, copybuf, page);
      DescribeOne(c, args0, copybuf, page, k, was, wasPages, pv, pg);
      rpra[i], pages[i] := pv, pg;
      assert rpra[..] == was[i := pv] && pages[..] == wasPages[i := pg];
    }
  }

  /** The copy of one argument to the address `pv` it was given. */
  method CopyOne(c: Call, k: nat, ghost base: int, pv: int, user: nat -> byte, faults: set<nat>, ghost mem0: Memory,
      mem: Memory)
    returns (ok: bool, mem': Memory)
    requires c.Valid() && k < |c.q| && mem == c.Image(base, user, mem0, k) && (!c.Skip(k) ==> pv == c.Dst(base, k))
    ensures ok <==> !Faults(c, faults, k)
    ensures mem' == c.Image(base, user, mem0, if ok then k + 1 else k)
  {
    ok, mem' := true, mem;
    if IsCopiedInput(c, k) {
      if c.q[k].raix in faults {
        ok := false;
        return;
      }
      mem' := mem + Copied(user, c.q[k].start, pv, c.q[k].end - c.q[k].start);
    }
  }

  /** The state of the copying pass when it has copied and described the first k arguments. */
  ghost predicate CopiedTo(c: Call, base: int, buf: Buf, page: nat, user: nat -> byte, faults: set<nat>, mem0: Memory,
                           k: nat, args: int, mem: Memory, rpra: seq<int>, pages: seq<PhyPage>)
    requires k <= |c.q| && page > 0
  {
    && args == c.Cursor(base, k) && mem == c.Image(base, user, mem0, k)
    && (forall j :: 0 <= j < k ==> !Faults(c, faults, j))
    && DescribedTo(c, base, buf, page, k, rpra, pages)
  }

  /** One iteration of the copying pass. */
  method CopyNext(c: Call, k: nat, args0: int, args: int, rlen: nat, totallen: nat, copybuf: Buf, page: nat,
                  user: nat -> byte, faults: set<nat>, ghost mem0: Memory, mem: Memory, rpra: array<int>,
                  pages: array<PhyPage>)
    returns (status: Status, args': int, rlen': int, mem': Memory)
    requires c.Valid() && page > 0 && k < |c.q| && rpra.Length == pages.Length
    requires CopiedTo(c, args0, copybuf, page, user, faults, mem0, k, args, mem, rpra[..], pages[..])
    requires args - copybuf.va == totallen - rlen && c.Cursor(args0, |c.q|) <= args + rlen
    modifies rpra, pages
    ensures status == if Faults(c, faults, k) then CopyFault else Done
    ensures status == CopyFault ==> mem' == mem
    ensures status == Done ==>
      CopiedTo(c, args0, copybuf, page, user, faults, mem0, k + 1, args', mem', rpra[..], pages[..])
    ensures status == Done ==> args' + rlen' == args + rlen && rlen' >= 0
    ensures KeepsRest(c, old(rpra[..]), old(pages[..]), rpra[..], pages[..])
  {
    var fits;
    fits, args', rlen' := DescribeNext(c, k, args0, args, rlen, totallen, copybuf, page, rpra, pages);
    if !fits {
      return NoSpace, args', rlen', mem;
    }
    var copied;
    copied, mem' := CopyOne(c, k, args0, rpra[c.q[k].raix], user, faults, mem0, mem);
    status := if copied then Done else CopyFault;
  }

  /**
    Second pass; copy_from_user fails on the arguments in `faults`, and `n` is the argument it stops at.
    The check of the room left never fails.
   */
  method CopyArgs(c: Call, args0: int, rlen0: nat, totallen: nat, copybuf: Buf, page: nat, user: nat -> byte,
                  faults: set<nat>, mem0: Memory, rpra: array<int>, pages: array<PhyPage>)
    returns (status: Status, mem: Memory, ghost n: nat)
    requires c.Valid() && page > 0 && rpra.Length == pages.Length && c.Names(rpra.Length)
    requires args0 - copybuf.va == totallen - rlen0
    requires c.Cursor(args0, |c.q|) <= args0 + rlen0
    modifies rpra, pages
    ensures status == Done || status == CopyFault
    ensures n <= |c.q| && mem == c.Image(args0, user, mem0, n) && forall k :: 0 <= k < n ==> !Faults(c, faults, k)
    ensures if status == Done then n == |c.q| else n < |c.q| && Faults(c, faults, n)
    ensures status == Done ==> DescribedTo(c, args0, copybuf, page, |c.q|, rpra[..], pages[..])
    ensures KeepsRest(c, old(rpra[..]), old(pages[..]), rpra[..], pages[..])
  {
    var args, rlen: int := args0, rlen0;
    mem, status := mem0, Done;
    var oix: nat := 0;
    while oix < |c.q|
      invariant oix <= |c.q| && args + rlen == args0 + rlen0 && rlen >= 0
      invariant CopiedTo(c, args0, copybuf, page, user, faults, mem0, oix, args, mem, rpra[..], pages[..])
      invariant KeepsRest(c, old(rpra[..]), old(pages[..]), rpra[..], pages[..])
    {
      status, args, rlen, mem := CopyNext(c, oix, args0, args, rlen, totallen, copybuf, page, user, faults, mem0, mem,
        rpra, pages);
      if status != Done {
        return status, mem, oix;
      }
      oix := oix + 1;
    }
    status, n := Done, oix;
  }

  /** Memory differs only in the space of copied inputs. */
  ghost predicate OnlyCopies(c: Call, base: int, mem0: Memory, mem: Memory) {
    forall a :: (forall j :: 0 <= j < |c.q| ==> !InCopy(c, base, j, a)) ==> SameAt(mem0, mem, a)
  }

  lemma ImageStays(c: Call, base: int, user: nat -> byte, mem: Memory, k: nat)
    requires k <= |c.q|
    ensures OnlyCopies(c, base, mem, c.Image(base, user, mem, k))
  {
    forall a | forall j :: 0 <= j < |c.q| ==> !InCopy(c, base, j, a)
      ensures SameAt(mem, c.Image(base, user, mem, k), a)
    {
      OnlyInputsAreWritten(c, base, user, mem, k, a);
    }
  }

  /** A caller's view of a good result for argument k. */
  ghost predicate Delivered(c: Call, lo: int, hi: int, buf: Buf, page: nat, user: nat -> byte, mem: Memory,
                            k: nat, pv: int, pg: PhyPage)
    requires k < |c.q| && page > 0
  {
    c.Skip(k) ||
    (&& lo <= pv && pv + c.Len(k) <= hi
     && pg.size % page == 0
     && IsLeastCover(pg.addr, pg.size / page, buf.da + (pv - buf.va), c.Len(k), page)
     && (c.q[k].raix < c.inbufs ==>
           forall a :: pv <= a < pv + c.Len(k) ==> a in mem && mem[a] == user(c.q[k].start + (a - pv))))
  }

  lemma DescribedIsDelivered(c: Call, base: int, hi: int, buf: Buf, page: nat, user: nat -> byte, mem0: Memory,
                             k: nat, pv: int, pg: PhyPage)
    requires c.Valid() && Separable(c) && k < |c.q| && page > 0
    requires buf.va % page == 0 && buf.da % page == 0 && c.Cursor(base, |c.q|) <= hi
    requires Described(c, base, buf, page, k, pv, pg)
    ensures Delivered(c, base, hi, buf, page, user, c.Image(base, user, mem0, |c.q|), k, pv, pg)
  {
    if !c.Skip(k) {
      DstInside(c, base, k);
      PieceFacts(c, k);
      DescriptorIsLeastCover(page, buf.va, buf.da, pv, c.Len(k));
      var num := BufNumPages(pv, c.Len(k), page);
      DivUnique(num * page, num, page);
      Multiple(num * page, page);
      if c.q[k].raix < c.inbufs {
        ImageHolds(c, base, user, mem0, |c.q|, k);
        assert Holds(c, base, user, c.Image(base, user, mem0, |c.q|), k);
      }
    }
  }

  ghost predicate GoodBuf(b: Buf, page: nat)
    requires page > 0
  {
    b.va % page == 0 && b.da % page == 0
  }

  /** The first address used in the buffer of the copies. */
  function Start(buf: Buf, meta: Buf, metalen: nat): int {
    if buf == meta then meta.va + metalen else buf.va
  }

  /** Every copied argument is delivered and the metadata in front of the data area is untouched. */
  ghost predicate AllDelivered(c: Call, metalen: nat, meta: Buf, buf: Buf, page: nat, user: nat -> byte,
                               mem0: Memory, mem: Memory, rpra: seq<int>, pages: seq<PhyPage>)
    requires page > 0 && |rpra| == |pages| && c.Names(|rpra|)
  {
    var lo := Start(buf, meta, metalen);
    && (forall k :: 0 <= k < |c.q| ==>
          Delivered(c, lo, buf.va + buf.size, buf, page, user, mem, k, rpra[c.q[k].raix], pages[c.q[k].raix]))
    && (forall a :: !(lo <= a < buf.va + buf.size) ==> SameAt(mem0, mem, a))
  }

  /** The buffer chosen for the copies, the first address used in it, and the two lengths kept. */
  ghost predicate Chosen(c: Call, metalen: nat, meta: Buf, page: nat, buf: Buf, args: int, rlen: nat, totallen: nat)
    requires page > 0
  {
    && GoodBuf(buf, page)
    && args == Start(buf, meta, metalen)
    && args - buf.va == totallen - rlen
    && c.Cursor(args, |c.q|) <= args + rlen <= buf.va + buf.size
  }

  /**
    The copies go behind the metadata when they fit in its pages and into a buffer of their own
    otherwise; `alloc` stands for that allocation.
   */
  method ChooseBuffer(c: Call, copylen: nat, metalen: nat, meta: Buf, alloc: nat -> Option<Buf>, page: nat)
    returns (copybuf: Option<Buf>, args: int, rlen: nat, totallen: nat)
    requires c.Valid() && copylen == c.Cursor(0, |c.q|) && ValidPage(page)
    requires 0 < metalen < MAX_BUF_SIZE && GoodBuf(meta, page) && BufPageSize(metalen, page) <= meta.size
    requires forall n: nat :: alloc(n).Some? ==>
      GoodBuf(alloc(n).value, page) && n <= alloc(n).value.size && alloc(n).value != meta
    ensures copybuf.None? <==> Align(metalen) + copylen > BufPageSize(metalen, page) && alloc(copylen).None?
    ensures copybuf == if Align(metalen) + copylen <= BufPageSize(metalen, page) then Some(meta) else alloc(copylen)
    ensures copybuf.Some? ==> Chosen(c, metalen, meta, page, copybuf.value, args, rlen, totallen)
  {
    args, rlen, totallen := 0, 0, Align(metalen) + copylen;
    AlignFacts(metalen);
    AlignWithinPages(metalen, page);
    if totallen <= BufPageSize(metalen, page) {
      PageMultipleAligns(meta.va, page);
      PassesAgree(c, meta.va, metalen);
      args := meta.va + metalen;
      copybuf := Some(meta);
      rlen := totallen - metalen;
    } else {
      assert copylen > 0;
      copybuf := alloc(copylen);
      if copybuf.Some? {
        PageMultipleAligns(copybuf.value.va, page);
        PassesAgree(c, copybuf.value.va, 0);
        args := copybuf.value.va;
        rlen := copylen;
        totallen := copylen;
      }
    }
  }

  lemma DescribedIsAllDelivered(c: Call, metalen: nat, meta: Buf, buf: Buf, page: nat, user: nat -> byte, mem0: Memory,
                                args: int, rlen: nat, totallen: nat, rpra: seq<int>, pages: seq<PhyPage>)
    requires c.Valid() && Separable(c) && page > 0 && |rpra| == |pages| && c.Names(|rpra|)
    requires Chosen(c, metalen, meta, page, buf, args, rlen, totallen)
    requires DescribedTo(c, args, buf, page, |c.q|, rpra, pages)
    ensures AllDelivered(c, metalen, meta, buf, page, user, mem0, c.Image(args, user, mem0, |c.q|), rpra, pages)
  {
    forall k | 0 <= k < |c.q|
      ensures Delivered(c, args, buf.va + buf.size, buf, page, user, c.Image(args, user, mem0, |c.q|), k,
                        rpra[c.q[k].raix], pages[c.q[k].raix])
    {
      assert DescribedAt(c, args, buf, page, k, rpra, pages);
      DescribedIsDelivered(c, args, buf.va + buf.size, buf, page, user, mem0, k, rpra[c.q[k].raix], pages[c.q[k].raix]);
    }
    forall a | !(args <= a < buf.va + buf.size) ensures SameAt(mem0, c.Image(args, user, mem0, |c.q|), a) {
      ImageFrame(c, args, user, mem0, |c.q|, a);
    }
  }

  predicate OverLong(c: Call) {
    c.Cursor(0, |c.q|) > LONG_MAX
  }

  /** The copies do not fit behind the metadata and there is no buffer for them. */
  predicate OutOfMemory(c: Call, metalen: nat, page: nat, alloc: nat -> Option<Buf>)
    requires page > 0
  {
    var n := c.Cursor(0, |c.q|);
    n >= 0 && Align(metalen) + n > BufPageSize(metalen, page) && alloc(n).None?
  }

  /** Address a is in the space, starting where `rpra` says, of an input that is copied. */
  ghost predicate IsWritten(c: Call, rpra: seq<int>, a: int) {
    exists k :: 0 <= k < |c.q| && c.q[k].raix < c.inbufs && c.q[k].raix < |rpra| && c.q[k].raix !in c.mapped
                && InSpan(a, rpra[c.q[k].raix], c.Len(k))
  }

  lemma DescribedAreWritten(c: Call, base: int, buf: Buf, page: nat, rpra: seq<int>, pages: seq<PhyPage>, mem0: Memory,
                            mem: Memory)
    requires c.Valid() && page > 0 && DescribedTo(c, base, buf, page, |c.q|, rpra, pages)
    requires OnlyCopies(c, base, mem0, mem)
    ensures forall a :: !IsWritten(c, rpra, a) ==> SameAt(mem0, mem, a)
  {
    forall a | !IsWritten(c, rpra, a) ensures SameAt(mem0, mem, a) {
      forall j | 0 <= j < |c.q| ensures !InCopy(c, base, j, a) {
        assert DescribedAt(c, base, buf, page, j, rpra, pages);
      }
    }
  }

  /** An argument that opens an overlap run is aligned. */
  ghost predicate LeadersAligned(c: Call, rpra: seq<int>)
    requires c.Names(|rpra|)
  {
    forall k :: 0 <= k < |c.q| && !c.Skip(k) && Leads(c.q, k) ==> rpra[c.q[k].raix] % BALIGN == 0
  }

  lemma DescribedAreAligned(c: Call, base: int, buf: Buf, page: nat, rpra: seq<int>, pages: seq<PhyPage>)
    requires c.Valid() && page > 0 && DescribedTo(c, base, buf, page, |c.q|, rpra, pages)
    ensures LeadersAligned(c, rpra)
  {
    forall k | 0 <= k < |c.q| && !c.Skip(k) && Leads(c.q, k) ensures rpra[c.q[k].raix] % BALIGN == 0 {
      assert DescribedAt(c, base, buf, page, k, rpra, pages);
      LeaderIsAligned(c, base, k);
    }
  }

  ghost predicate AnyFault(c: Call, faults: set<nat>) {
    exists k :: 0 <= k < |c.q| && Faults(c, faults, k)
  }

  /**
    get_args from the overlap list on.  The room check never fails.  The copies go behind the metadata
    exactly when they fit there.  In every call only the space of copied inputs is written, and arguments
    that are not packed keep their entries.  When the call is separable every copied argument is
    delivered inside the buffer that was chosen.
   */
  method GetArgs(c: Call, metalen: nat, meta: Buf, alloc: nat -> Option<Buf>, page: nat, user: nat -> byte,
                 faults: set<nat>, mem0: Memory, rpra: array<int>, pages: array<PhyPage>)
    returns (status: Status, copybuf: Option<Buf>, mem: Memory)
    requires c.Valid() && ValidPage(page) && rpra.Length == pages.Length && c.Names(rpra.Length)
    requires 0 < metalen < MAX_BUF_SIZE && GoodBuf(meta, page) && BufPageSize(metalen, page) <= meta.size
    requires forall n: nat :: alloc(n).Some? ==>
      GoodBuf(alloc(n).value, page) && n <= alloc(n).value.size && alloc(n).value != meta
    modifies rpra, pages
    ensures status != NoSpace
    ensures status == TooLong <==> OverLong(c)
    ensures status == NoMemory <==> !OverLong(c) && OutOfMemory(c, metalen, page, alloc)
    ensures status == CopyFault <==> !OverLong(c) && !OutOfMemory(c, metalen, page, alloc) && AnyFault(c, faults)
    ensures status == Done ==> copybuf.Some?
    ensures status == Done ==>
      (copybuf == Some(meta) <==> Align(metalen) + c.Cursor(0, |c.q|) <= BufPageSize(metalen, page))
    ensures status == TooLong || status == NoMemory ==> mem == mem0
    ensures status == Done ==> forall a :: !IsWritten(c, rpra[..], a) ==> SameAt(mem0, mem, a)
    ensures status == CopyFault ==> copybuf.Some? && OnlyCopies(c, Start(copybuf.value, meta, metalen), mem0, mem)
    ensures status == Done ==> LeadersAligned(c, rpra[..])
    ensures KeepsRest(c, old(rpra[..]), old(pages[..]), rpra[..], pages[..])
    ensures status == Done && Separable(c) ==>
      AllDelivered(c, metalen, meta, copybuf.value, page, user, mem0, mem, rpra[..], pages[..])
  {
    mem, copybuf := mem0, None;
    var measured := CopyLen(c);
    if measured.None? {
      return TooLong, copybuf, mem;
    }
    var args, rlen, totallen;
    copybuf, args, rlen, totallen := ChooseBuffer(c, measured.value, metalen, meta, alloc, page);
    if copybuf.None? {
      return NoMemory, copybuf, mem;
    }
    ghost var n;
    status, mem, n := CopyArgs(c, args, rlen, totallen, copybuf.value, page, user, faults, mem0, rpra, pages);
    ImageStays(c, args, user, mem0, n);
    assert AnyFault(c, faults) <==> status == CopyFault;
    if status == Done {
      DescribedAreWritten(c, args, copybuf.value, page, rpra[..], pages[..], mem0, mem);
      DescribedAreAligned(c, args, copybuf.value, page, rpra[..], pages[..]);
    }
    if status == Done && Separable(c) {
      DescribedIsAllDelivered(c, metalen, meta, copybuf.value, page, user, mem0, args, rlen, totallen, rpra[..],
          pages[..]);
    }
  }
}

/**
  The argument intervals of one remote call: context_build_overlap of the hybrid driver.
  Every buffer argument is the interval [start, end) of user addresses.  The driver sorts
  pointers to the intervals, sweeps them once and leaves in each a piece [mstart, mend),
  the part of the interval that no earlier interval has claimed.
 */
module Overlaps {
  import opened Common
  import opened Counting

  /** The `buf` member of a remote argument. */
  datatype RemoteBuf = RemoteBuf(pv: u64, len: u64)

  datatype Overlap = Overlap(start: u64, end: u64, raix: nat, mstart: u64, mend: u64, offset: u64, doCmo: bool)

  // ---------------------------------------------------------------------------------------
  // Sorting
  // ---------------------------------------------------------------------------------------

  function Cmp(a: int, b: int): int {
    if a == b then 0 else if a < b then -1 else 1
  }

  /** overlap_ptr_cmp: lowest start first, then highest end first. */
  function OverlapCmp(a: Overlap, b: Overlap): int {
    var st := Cmp(a.start, b.start);
    if st == 0 then Cmp(b.end, a.end) else st
  }

  /** The comparison is antisymmetric and transitive, as sort() needs it to be. */
  lemma OverlapCmpIsOrder(a: Overlap, b: Overlap, c: Overlap)
    ensures OverlapCmp(a, b) == -OverlapCmp(b, a)
    ensures OverlapCmp(a, b) == 0 <==> a.start == b.start && a.end == b.end
    ensures OverlapCmp(a, b) <= 0 && OverlapCmp(b, c) <= 0 ==> OverlapCmp(a, c) <= 0
  {
  }

  /** The list seen through the sorted pointers. */
  function View(overs: seq<Overlap>, ps: seq<nat>): (q: seq<Overlap>)
    requires Below(ps, |overs|)
    ensures |q| == |ps|
    ensures forall k :: 0 <= k < |ps| ==> q[k] == overs[ps[k]]
  {
    seq(|ps|, k requires 0 <= k < |ps| => overs[ps[k]])
  }

  ghost predicate Sorted(q: seq<Overlap>) {
    forall i, j :: 0 <= i < j < |q| ==> OverlapCmp(q[i], q[j]) <= 0
  }

  /**
    Library sort() on the pointer array.  The kernel's heapsort is not part of this model; callers
    below know only the contract, so what they prove holds of any sorted arrangement, stable or not.
   */
  method SortPointers(overs: array<Overlap>, overps: array<nat>)
    requires Permutes(overps[..], overs.Length)
    modifies overps
    ensures Permutes(overps[..], overs.Length)
    ensures Sorted(View(overs[..], overps[..]))
  {
    var r := InsertAll(overs, overps);
    forall k | 0 <= k < overps.Length {
      overps[k] := r[k];
    }
    assert overps[..] == r;
  }

  /** The sorted part after the first i pointers, and the pointers still to come. */
  ghost predicate SortedPart(overs: seq<Overlap>, ps: seq<nat>, r: seq<nat>, i: nat)
    requires i <= |ps|
  {
    |r| == i && Below(r, |overs|) && Distinct(r + ps[i..]) && Sorted(View(overs, r))
  }

  lemma InsertStep(overs: seq<Overlap>, ps: seq<nat>, r: seq<nat>, i: nat, j: nat)
    requires i < |ps| && ps[i] < |overs| && SortedPart(overs, ps, r, i) && j <= |r|
    requires 0 < j ==> OverlapCmp(overs[ps[i]], overs[r[j - 1]]) >= 0
    requires forall k :: j <= k < |r| ==> OverlapCmp(overs[ps[i]], overs[r[k]]) <= 0
    ensures SortedPart(overs, ps, r[..j] + [ps[i]] + r[j..], i + 1)
  {
    InsertKeepsOrder(overs, r, j, ps[i]);
    InsertKeepsDistinct(r, ps[i..], j);
    assert ps[i..][1..] == ps[i + 1..];
  }

  method InsertAll(overs: array<Overlap>, overps: array<nat>) returns (r: seq<nat>)
    requires Permutes(overps[..], overs.Length)
    ensures Permutes(r, overs.Length) && Sorted(View(overs[..], r))
  {
    ghost var os, ps := overs[..], overps[..];
    r := [];
    assert [] + ps[0..] == ps;
    var i := 0;
    while i < overps.Length
      invariant i <= overps.Length && SortedPart(os, ps, r, i)
    {
      var j := InsertionPoint(overs, r, overps[i]);
      InsertStep(os, ps, r, i, j);
      r := r[..j] + [overps[i]] + r[j..];
      i := i + 1;
    }
    assert r + ps[i..] == r;
  }

  method InsertionPoint(overs: array<Overlap>, r: seq<nat>, p: nat) returns (j: nat)
    requires Below(r, overs.Length) && p < overs.Length
    ensures j <= |r|
    ensures 0 < j ==> OverlapCmp(overs[p], overs[r[j - 1]]) >= 0
    ensures forall k :: j <= k < |r| ==> OverlapCmp(overs[p], overs[r[k]]) <= 0
  {
    j := |r|;
    while 0 < j && OverlapCmp(overs[p], overs[r[j - 1]]) < 0
      invariant j <= |r|
      invariant forall k :: j <= k < |r| ==> OverlapCmp(overs[p], overs[r[k]]) <= 0
    {
      j := j - 1;
    }
  }

  lemma InsertKeepsDistinct(r: seq<nat>, rest: seq<nat>, j: nat)
    requires j <= |r| && rest != [] && Distinct(r + rest)
    ensures Distinct(r[..j] + [rest[0]] + r[j..] + rest[1..])
  {
    var was, now := r + rest, r[..j] + [rest[0]] + r[j..] + rest[1..];
    forall a, b | 0 <= a < b < |now| ensures now[a] != now[b] {
      var a' := if a < j || a > |r| then a else if a == j then |r| else a - 1;
      var b' := if b < j || b > |r| then b else if b == j then |r| else b - 1;
      assert now[a] == was[a'] && now[b] == was[b'];
    }
  }

  lemma InsertKeepsOrder(overs: seq<Overlap>, r: seq<nat>, j: nat, p: nat)
    requires Below(r, |overs|) && p < |overs| && j <= |r| && Sorted(View(overs, r))
    requires 0 < j ==> OverlapCmp(overs[p], overs[r[j - 1]]) >= 0
    requires forall k :: j <= k < |r| ==> OverlapCmp(overs[p], overs[r[k]]) <= 0
    ensures Below(r[..j] + [p] + r[j..], |overs|)
    ensures Sorted(View(overs, r[..j] + [p] + r[j..]))
  {
    var q, q' := View(overs, r), View(overs, r[..j] + [p] + r[j..]);
    forall a, b | 0 <= a < b < |q'| ensures OverlapCmp(q'[a], q'[b]) <= 0 {
      if b == j {
        assert a == j - 1 || OverlapCmp(q[a], q[j - 1]) <= 0;
      } else {
        var a' := if a < j then a else a - 1;
        var b' := if b < j then b else b - 1;
        assert a == j || OverlapCmp(q[a'], q[b']) <= 0;
        assert a != j || q'[b] == overs[r[b']];
      }
    }
  }

  // ---------------------------------------------------------------------------------------
  // What the sweep leaves, in closed form
  // ---------------------------------------------------------------------------------------

  function Max(a: nat, b: nat): nat {
    if a > b then a else b
  }

  /** The highest end among the first k intervals. */
  function MaxEnd(q: seq<Overlap>, k: nat): nat
    requires k <= |q|
  {
    if k == 0 then 0 else Max(MaxEnd(q, k - 1), q[k - 1].end)
  }

  lemma {:induction false} MaxEndIsMax(q: seq<Overlap>, k: nat)
    requires k <= |q|
    ensures forall j :: 0 <= j < k ==> q[j].end <= MaxEnd(q, k)
    ensures MaxEnd(q, k) == 0 || exists j :: 0 <= j < k && q[j].end == MaxEnd(q, k)
  {
    if k > 0 {
      MaxEndIsMax(q, k - 1);
    }
  }

  /** Interval k shares no address with the ones before it and so opens an overlap run. */
  predicate Leads(q: seq<Overlap>, k: nat)
    requires k < |q|
  {
    q[k].start >= MaxEnd(q, k)
  }

  /** The interval that opened the run of interval k. */
  function Leader(q: seq<Overlap>, k: nat): (l: nat)
    requires k < |q|
    ensures l <= k
  {
    if k == 0 || Leads(q, k) then k else Leader(q, k - 1)
  }

  /** The argument index held in `max` when the sweep reaches interval k. */
  function LeaderRaix(q: seq<Overlap>, k: nat): nat
    requires k <= |q|
  {
    if k == 0 then 0 else if Leads(q, k - 1) then q[k - 1].raix else LeaderRaix(q, k - 1)
  }

  lemma {:induction false} LeaderRaixIsLeaders(q: seq<Overlap>, k: nat)
    requires k < |q|
    ensures LeaderRaix(q, k + 1) == q[Leader(q, k)].raix
  {
    if k > 0 {
      LeaderRaixIsLeaders(q, k - 1);
    }
  }

  /** do_cmo marks the swallowed intervals whose run was opened by an argument of the other direction. */
  lemma CmoFlagMeaning(q: seq<Overlap>, inbufs: nat, k: nat)
    requires Swept(q, inbufs) && k < |q|
    ensures q[k].doCmo <==> Swallowed(q, k) && (q[Leader(q, k)].raix < inbufs <==> q[k].raix >= inbufs)
  {
    assert IsCut(q, k, inbufs);
    LeaderRaixBefore(q, k);
  }

  lemma LeaderRaixBefore(q: seq<Overlap>, k: nat)
    requires k < |q|
    ensures Leads(q, k) || LeaderRaix(q, k) == q[Leader(q, k)].raix
  {
    if k > 0 {
      LeaderRaixIsLeaders(q, k - 1);
    }
  }

  lemma {:induction false} LeaderLeads(q: seq<Overlap>, k: nat)
    requires k < |q|
    ensures Leads(q, Leader(q, k))
    ensures forall j :: Leader(q, k) < j <= k ==> !Leads(q, j)
  {
    if k != 0 && !Leads(q, k) {
      LeaderLeads(q, k - 1);
    }
  }

  ghost predicate SameRun(q: seq<Overlap>, j: nat, k: nat)
    requires j < |q| && k < |q|
  {
    Leader(q, j) == Leader(q, k)
  }

  /** Interval k adds no address to what the earlier ones cover. */
  predicate Swallowed(q: seq<Overlap>, k: nat)
    requires k < |q|
  {
    !Leads(q, k) && q[k].end <= MaxEnd(q, k)
  }

  /** `o` is interval k of q with the piece, offset and flag that the sweep gives it. */
  ghost predicate IsCutOf(q: seq<Overlap>, k: nat, inbufs: nat, o: Overlap)
    requires k < |q|
  {
    CutAgainst(q[k], MaxEnd(q, k), LeaderRaix(q, k), inbufs, o)
  }

  ghost predicate IsCut(q: seq<Overlap>, k: nat, inbufs: nat)
    requires k < |q|
  {
    IsCutOf(q, k, inbufs, q[k])
  }

  ghost predicate Swept(q: seq<Overlap>, inbufs: nat) {
    && (forall k :: 0 <= k < |q| ==> q[k].start <= q[k].end)
    && Sorted(q)
    && (forall k :: 0 <= k < |q| ==> IsCut(q, k, inbufs))
  }

  ghost predicate SameSpan(a: Overlap, b: Overlap) {
    a.raix == b.raix && a.start == b.start && a.end == b.end
  }

  ghost predicate Wraps(b: RemoteBuf) {
    b.len > 0 && b.pv + b.len >= WORD
  }

  lemma MaxEndOfSameSpans(q: seq<Overlap>, q': seq<Overlap>, k: nat)
    requires |q| == |q'| && k <= |q|
    requires forall j :: 0 <= j < |q| ==> SameSpan(q[j], q'[j])
    ensures MaxEnd(q, k) == MaxEnd(q', k)
    ensures forall j :: 0 <= j < k ==> Leads(q, j) == Leads(q', j)
    ensures LeaderRaix(q, k) == LeaderRaix(q', k)
  {
    if k > 0 {
      MaxEndOfSameSpans(q, q', k - 1);
    }
  }

  /**
    context_build_overlap: fill `overs`, sort `overps`, sweep.  Fails exactly when some argument
    with a length runs past the end of the address space.
   */
  method BuildOverlap(lpra: seq<RemoteBuf>, inbufs: nat, overs: array<Overlap>, overps: array<nat>)
    returns (ok: bool)
    requires overs.Length == overps.Length == |lpra|
    requires forall i :: 0 <= i < |lpra| ==> !overs[i].doCmo  // kzalloc
    modifies overs, overps
    ensures !ok <==> exists b <- lpra :: Wraps(b)
    ensures ok ==> Permutes(overps[..], |lpra|)
    ensures ok ==> Swept(View(overs[..], overps[..]), inbufs)
    ensures ok ==> forall i :: 0 <= i < |lpra| ==>
      overs[i].raix == i && overs[i].start == lpra[i].pv && overs[i].end == lpra[i].pv + lpra[i].len
  {
    var nbufs := |lpra|;
    var i := 0;
    while i < nbufs
      invariant i <= nbufs
      invariant forall j :: 0 <= j < i ==> !Wraps(lpra[j]) && overps[j] == j
      invariant forall j :: 0 <= j < i ==>
        overs[j].raix == j && overs[j].start == lpra[j].pv && overs[j].end == lpra[j].pv + lpra[j].len
      invariant forall j :: 0 <= j < nbufs ==> !overs[j].doCmo
    {
      var end := (lpra[i].pv + lpra[i].len) % WORD;
      overs[i] := overs[i].(start := lpra[i].pv, end := end);
      if lpra[i].len != 0 && !(overs[i].end > overs[i].start) {
        assert Wraps(lpra[i]);
        return false;
      }
      assert !Wraps(lpra[i]);
      overs[i] := overs[i].(raix := i);
      overps[i] := i;
      i := i + 1;
    }
    SortPointers(overs, overps);
    Sweep(inbufs, overs, overps);
    ok := true;
  }

  /** `o'` is `o` with the piece, offset and flag it gets against `maxEnd` and the run's first argument index. */
  ghost predicate CutAgainst(o: Overlap, maxEnd: nat, maxRaix: nat, inbufs: nat, o': Overlap) {
    var leads, swallowed := o.start >= maxEnd, o.start < maxEnd && o.end <= maxEnd;
    && SameSpan(o', o)
    && o'.offset == (if leads then 0 else maxEnd - o.start)
    && o'.mstart == (if leads then o.start else if swallowed then 0 else maxEnd)
    && o'.mend == (if swallowed then 0 else o.end)
    && (o'.doCmo <==> swallowed && (maxRaix < inbufs <==> o.raix >= inbufs))
  }

  /** The body of the second loop. */
  method CutOne(o: Overlap, maxEnd: u64, maxRaix: nat, inbufs: nat)
    returns (o': Overlap, maxEnd': u64, maxRaix': nat)
    requires o.start <= o.end && !o.doCmo
    ensures CutAgainst(o, maxEnd, maxRaix, inbufs, o')
    ensures maxEnd' == Max(maxEnd, o.end)
    ensures maxRaix' == if o.start >= maxEnd then o.raix else maxRaix
  {
    o', maxEnd', maxRaix' := o, maxEnd, maxRaix;
    if o'.start < maxEnd {
      o' := o'.(mstart := maxEnd, mend := o'.end, offset := maxEnd - o'.start);
      if o'.end > maxEnd {
        maxEnd' := o'.end;
      } else {
        if (maxRaix < inbufs && o'.raix + 1 > inbufs) || (o'.raix < inbufs && maxRaix + 1 > inbufs) {
          o' := o'.(doCmo := true);
        }
        o' := o'.(mend := 0, mstart := 0);
      }
    } else {
      o' := o'.(mend := o'.end, mstart := o'.start, offset := 0);
      maxEnd', maxRaix' := o'.end, o'.raix;
    }
  }

  /** The second loop of context_build_overlap. */
  method Sweep(inbufs: nat, overs: array<Overlap>, overps: array<nat>)
    requires Permutes(overps[..], overs.Length)
    requires Sorted(View(overs[..], overps[..]))
    requires forall j :: 0 <= j < overs.Length ==> overs[j].start <= overs[j].end && !overs[j].doCmo
    modifies overs
    ensures Swept(View(overs[..], overps[..]), inbufs)
    ensures forall j :: 0 <= j < overs.Length ==> SameSpan(overs[j], old(overs[j]))
  {
    ghost var ps, was := overps[..], overs[..];
    var maxEnd: u64, maxRaix: nat := 0, 0;
    var i := 0;
    while i < overs.Length
      invariant i <= overs.Length
      invariant SweptTo(was, overs[..], ps, i, inbufs, maxEnd, maxRaix)
    {
      var p := overps[i];
      var o, end, raix := CutOne(overs[p], maxEnd, maxRaix, inbufs);
      ghost var now := overs[..];
      SweepStep(was, now, ps, i, inbufs, maxEnd, maxRaix, o);
      overs[p], maxEnd, maxRaix := o, end, raix;
      assert overs[..] == now[p := o];
      i := i + 1;
    }
    CutsCarryOver(was, overs[..], ps, inbufs, maxEnd, maxRaix);
  }

  ghost predicate CutAt(was: seq<Overlap>, now: seq<Overlap>, ps: seq<nat>, inbufs: nat, k: nat)
    requires |was| == |now| && Below(ps, |was|) && k < |ps|
  {
    IsCutOf(View(was, ps), k, inbufs, now[ps[k]])
  }

  /** The state of the sweep when it has cut the first i intervals. */
  ghost predicate SweptTo(was: seq<Overlap>, now: seq<Overlap>, ps: seq<nat>, i: nat, inbufs: nat, maxEnd: nat,
      maxRaix: nat) {
    && |was| == |now| && Permutes(ps, |was|) && i <= |ps|
    && maxEnd == MaxEnd(View(was, ps), i) && maxRaix == LeaderRaix(View(was, ps), i)
    && (forall j :: 0 <= j < |was| ==> SameSpan(now[j], was[j]) && was[j].start <= was[j].end)
    && (forall k :: 0 <= k < i ==> CutAt(was, now, ps, inbufs, k))
    && (forall k :: i <= k < |ps| ==> !now[ps[k]].doCmo)
  }

  lemma SweepStep(was: seq<Overlap>, now: seq<Overlap>, ps: seq<nat>, i: nat, inbufs: nat, maxEnd: nat, maxRaix: nat,
      o: Overlap)
    requires i < |was| && SweptTo(was, now, ps, i, inbufs, maxEnd, maxRaix)
    requires CutAgainst(now[ps[i]], maxEnd, maxRaix, inbufs, o)
    ensures SweptTo(was, now[ps[i] := o], ps, i + 1, inbufs,
                    Max(maxEnd, o.end), if o.start >= maxEnd then o.raix else maxRaix)
  {
    var now' := now[ps[i] := o];
    forall k | 0 <= k < i + 1 ensures CutAt(was, now', ps, inbufs, k) {
      if k < i {
        assert CutAt(was, now, ps, inbufs, k) && ps[k] != ps[i];
      }
    }
    forall k | i + 1 <= k < |ps| ensures !now'[ps[k]].doCmo {
      assert ps[k] != ps[i];
    }
  }

  lemma CutsCarryOver(was: seq<Overlap>, now: seq<Overlap>, ps: seq<nat>, inbufs: nat, maxEnd: nat, maxRaix: nat)
    requires SweptTo(was, now, ps, |was|, inbufs, maxEnd, maxRaix) && Sorted(View(was, ps))
    ensures Swept(View(now, ps), inbufs)
    ensures forall j :: 0 <= j < |was| ==> SameSpan(now[j], was[j])
  {
    var q0, q := View(was, ps), View(now, ps);
    assert Sorted(q) by {
      forall i, j | 0 <= i < j < |q| ensures OverlapCmp(q[i], q[j]) <= 0 {
        assert OverlapCmp(q0[i], q0[j]) <= 0;
      }
    }
    forall k | 0 <= k < |q| ensures IsCut(q, k, inbufs) {
      MaxEndOfSameSpans(q0, q, k + 1);
      MaxEndOfSameSpans(q0, q, k);
      assert CutAt(was, now, ps, inbufs, k);
    }
  }

  // ---------------------------------------------------------------------------------------
  // What the pieces mean
  // ---------------------------------------------------------------------------------------

  predicate Within(o: Overlap, x: nat) {
    o.start <= x < o.end
  }

  predicate InPiece(o: Overlap, x: nat) {
    o.mstart <= x < o.mend
  }

  /** A piece holds the addresses of its interval that no earlier interval holds. */
  lemma PieceIsFirstCover(q: seq<Overlap>, inbufs: nat, k: nat, x: nat)
    requires Swept(q, inbufs) && k < |q|
    ensures InPiece(q[k], x) <==> Within(q[k], x) && forall j :: 0 <= j < k ==> !Within(q[j], x)
  {
    assert IsCut(q, k, inbufs);
    MaxEndIsMax(q, k);
    var m := MaxEnd(q, k);
    if Within(q[k], x) && (forall j :: 0 <= j < k ==> !Within(q[j], x)) && !Leads(q, k) {
      var j :| 0 <= j < k && q[j].end == m;
      assert OverlapCmp(q[j], q[k]) <= 0;
      assert !Within(q[j], x);
    }
  }

  /** The pieces are disjoint and cover exactly what the arguments cover. */
  lemma {:induction false} PiecesPartitionUnion(q: seq<Overlap>, inbufs: nat, x: nat)
    requires Swept(q, inbufs)
    ensures forall j, k :: 0 <= j < k < |q| && InPiece(q[j], x) ==> !InPiece(q[k], x)
    ensures (exists k :: 0 <= k < |q| && InPiece(q[k], x)) <==> (exists k :: 0 <= k < |q| && Within(q[k], x))
  {
    forall k | 0 <= k < |q|
      ensures InPiece(q[k], x) <==> Within(q[k], x) && forall j :: 0 <= j < k ==> !Within(q[j], x)
    {
      PieceIsFirstCover(q, inbufs, k, x);
    }
    if w :| 0 <= w < |q| && Within(q[w], x) {
      var f := FirstWithin(q, x, w);
      assert InPiece(q[f], x);
    }
  }

  lemma FirstWithin(q: seq<Overlap>, x: nat, w: nat) returns (f: nat)
    requires w < |q| && Within(q[w], x)
    ensures f <= w && Within(q[f], x) && forall j :: 0 <= j < f ==> !Within(q[j], x)
  {
    f := 0;
    while !Within(q[f], x)
      decreases w - f
      invariant f <= w && forall j :: 0 <= j < f ==> !Within(q[j], x)
    {
      f := f + 1;
    }
  }

  /** Of intervals with one start only the first, which is the longest, keeps a piece. */
  lemma TiesAreSwallowed(q: seq<Overlap>, inbufs: nat, j: nat, k: nat)
    requires Swept(q, inbufs) && j < k < |q| && q[j].start == q[k].start
    ensures q[k].mstart == q[k].mend || q[k].start == q[k].end
    ensures q[k].end <= q[j].end
  {
    assert OverlapCmp(q[j], q[k]) <= 0 && IsCut(q, k, inbufs);
    MaxEndIsMax(q, k);
  }

  /** The addresses that the first k arguments cover. */
  function Union(q: seq<Overlap>, k: nat): set<nat>
    requires k <= |q|
  {
    if k == 0 then {} else Union(q, k - 1) + Range(q[k - 1].start, q[k - 1].end)
  }

  lemma {:induction false} UnionMembers(q: seq<Overlap>, k: nat, x: nat)
    requires k <= |q|
    ensures x in Union(q, k) <==> exists j :: 0 <= j < k && Within(q[j], x)
  {
    if k > 0 {
      UnionMembers(q, k - 1, x);
      RangeFacts(q[k - 1].start, q[k - 1].end);
    }
  }

  function PieceSum(q: seq<Overlap>, k: nat): int
    requires k <= |q|
  {
    if k == 0 then 0 else PieceSum(q, k - 1) + (q[k - 1].mend - q[k - 1].mstart)
  }

  /** The piece lengths sum to the number of addresses the arguments cover. */
  lemma {:induction false} PieceSumIsUnionSize(q: seq<Overlap>, inbufs: nat, k: nat)
    requires Swept(q, inbufs) && k <= |q|
    ensures PieceSum(q, k) == |Union(q, k)|
  {
    if k > 0 {
      PieceSumIsUnionSize(q, inbufs, k - 1);
      PieceExtendsUnion(q, inbufs, k - 1);
    }
  }

  lemma PieceExtendsUnion(q: seq<Overlap>, inbufs: nat, k: nat)
    requires Swept(q, inbufs) && k < |q|
    ensures |Union(q, k + 1)| == |Union(q, k)| + (q[k].mend - q[k].mstart)
  {
    RangeFacts(q[k].start, q[k].end);
    RangeFacts(q[k].mstart, q[k].mend);
    forall x
      ensures x in Union(q, k + 1) <==> x in Union(q, k) || x in Range(q[k].mstart, q[k].mend)
      ensures !(x in Union(q, k) && x in Range(q[k].mstart, q[k].mend))
    {
      PieceIsFirstCover(q, inbufs, k, x);
      UnionMembers(q, k, x);
    }
    assert Union(q, k + 1) == Union(q, k) + Range(q[k].mstart, q[k].mend);
    DisjointSize(Union(q, k), Range(q[k].mstart, q[k].mend));
    assert IsCut(q, k, inbufs);
  }

  /** Arguments of different runs share no address. */
  lemma RunsAreApart(q: seq<Overlap>, inbufs: nat, j: nat, k: nat)
    requires Swept(q, inbufs) && j < k < |q| && !SameRun(q, j, k)
    ensures j < Leader(q, k)
    ensures q[j].end <= q[Leader(q, k)].start <= q[k].start
  {
    var l := Leader(q, k);
    if l <= j {
      LeaderInside(q, j, k);
    }
    MaxEndIsMax(q, l);
    assert l == k || OverlapCmp(q[l], q[k]) <= 0;
  }

  lemma LeaderInside(q: seq<Overlap>, j: nat, k: nat)
    requires j <= k < |q| && Leader(q, k) <= j
    ensures Leader(q, j) == Leader(q, k)
  {
    if j < k {
      LeaderInside(q, j, k - 1);
    }
  }

  /** Every address between the start of a run and the end of what it covers so far is covered. */
  lemma {:induction false} RunsAreContiguous(q: seq<Overlap>, inbufs: nat, k: nat, x: nat)
    requires Swept(q, inbufs) && k < |q|
    requires q[Leader(q, k)].start <= x < MaxEnd(q, k + 1)
    ensures exists j :: Leader(q, k) <= j <= k && Within(q[j], x)
  {
    if Leads(q, k) {
      assert Within(q[k], x);
    } else if x < MaxEnd(q, k) {
      RunsAreContiguous(q, inbufs, k - 1, x);
    } else {
      assert Within(q[k], x);
    }
  }

  // ---------------------------------------------------------------------------------------
  // Zero-length arguments
  // ---------------------------------------------------------------------------------------

  lemma {:induction false} MaxEndWithout(q: seq<Overlap>, z: nat, k: nat)
    requires z < |q| && k < |q|
    ensures k <= z ==> MaxEnd(RemoveAt(q, z), k) == MaxEnd(q, k)
    ensures k > z ==> MaxEnd(q, k) == Max(MaxEnd(RemoveAt(q, z), k - 1), q[z].end)
  {
    if k > 0 {
      MaxEndWithout(q, z, k - 1);
      if k - 1 < z {
        assert RemoveAt(q, z)[k - 1] == q[k - 1];
      } else if k - 1 > z {
        assert RemoveAt(q, z)[k - 2] == q[k - 1];
      }
    }
  }

  lemma ZeroLengthKeepsPlace(q: seq<Overlap>, inbufs: nat, z: nat, k: nat)
    requires Swept(q, inbufs) && z < |q| && q[z].start == q[z].end && k < |q| && k != z
    ensures var r, k' := RemoveAt(q, z), if k < z then k else k - 1;
      && r[k'] == q[k]
      && Leads(r, k') == Leads(q, k)
      && Swallowed(r, k') == Swallowed(q, k)
      && (!Leads(q, k) ==> MaxEnd(r, k') == MaxEnd(q, k))
  {
    MaxEndWithout(q, z, k);
    MaxEndIsMax(q, k);
    if z < k {
      assert OverlapCmp(q[z], q[k]) <= 0;
    }
  }

  /** Interval j of q has its counterpart in the list r that lacks interval z. */
  ghost predicate KeepsPlace(q: seq<Overlap>, r: seq<Overlap>, z: nat, j: nat)
    requires |q| == |r| + 1 && z < |q| && j < |q| && j != z
  {
    var j' := if j < z then j else j - 1;
    r[j'] == q[j] && (Leads(r, j') <==> Leads(q, j))
  }

  lemma {:induction false} LeaderRaixInFront(q: seq<Overlap>, r: seq<Overlap>, z: nat, k: nat)
    requires |q| == |r| + 1 && k <= z < |q| && forall j :: 0 <= j < |q| && j != z ==> KeepsPlace(q, r, z, j)
    ensures LeaderRaix(r, k) == LeaderRaix(q, k)
  {
    if k > 0 {
      assert KeepsPlace(q, r, z, k - 1);
      LeaderRaixInFront(q, r, z, k - 1);
    }
  }

  /** A zero-length argument never opens the run of another one. */
  lemma {:induction false} LeaderRaixBehind(q: seq<Overlap>, r: seq<Overlap>, z: nat, k: nat)
    requires |q| == |r| + 1 && z < k < |q| && forall j :: 0 <= j < |q| && j != z ==> KeepsPlace(q, r, z, j)
    requires Leads(q, z) ==> Leads(q, z + 1)
    requires !Leads(q, k)
    ensures LeaderRaix(r, k - 1) == LeaderRaix(q, k)
  {
    if k - 1 == z {
      LeaderRaixInFront(q, r, z, z);
    } else {
      assert KeepsPlace(q, r, z, k - 1);
      if !Leads(q, k - 1) {
        LeaderRaixBehind(q, r, z, k - 1);
      }
    }
  }

  lemma ZeroLengthLeadsAlone(q: seq<Overlap>, inbufs: nat, z: nat)
    requires Swept(q, inbufs) && z + 1 < |q| && q[z].start == q[z].end && Leads(q, z)
    ensures Leads(q, z + 1)
  {
    assert OverlapCmp(q[z], q[z + 1]) <= 0;
  }

  lemma CutWithoutZeroLength(q: seq<Overlap>, r: seq<Overlap>, inbufs: nat, z: nat, k: nat)
    requires |q| == |r| + 1 && z < |q| && k < |q| && k != z
    requires forall j :: 0 <= j < |q| && j != z ==> KeepsPlace(q, r, z, j)
    requires z + 1 < |q| && Leads(q, z) ==> Leads(q, z + 1)
    requires IsCut(q, k, inbufs) && (!Leads(q, k) ==> MaxEnd(r, if k < z then k else k - 1) == MaxEnd(q, k))
    ensures IsCut(r, if k < z then k else k - 1, inbufs)
  {
    assert KeepsPlace(q, r, z, k);
    if !Leads(q, k) {
      if k < z {
        LeaderRaixInFront(q, r, z, k);
      } else {
        LeaderRaixBehind(q, r, z, k);
      }
    }
  }

  lemma SortedWithout(q: seq<Overlap>, z: nat)
    requires Sorted(q) && z < |q|
    ensures Sorted(RemoveAt(q, z))
  {
    var r := RemoveAt(q, z);
    forall i, j | 0 <= i < j < |r| ensures OverlapCmp(r[i], r[j]) <= 0 {
      assert OverlapCmp(q[if i < z then i else i + 1], q[if j < z then j else j + 1]) <= 0;
    }
  }

  lemma CutsWithoutZeroLength(q: seq<Overlap>, inbufs: nat, z: nat, k': nat)
    requires Swept(q, inbufs) && z < |q| && q[z].start == q[z].end && k' < |q| - 1
    ensures IsCut(RemoveAt(q, z), k', inbufs)
    ensures RemoveAt(q, z)[k'].start <= RemoveAt(q, z)[k'].end
  {
    var k := if k' < z then k' else k' + 1;
    forall j | 0 <= j < |q| && j != z ensures KeepsPlace(q, RemoveAt(q, z), z, j) {
      ZeroLengthKeepsPlace(q, inbufs, z, j);
    }
    if z + 1 < |q| && Leads(q, z) {
      ZeroLengthLeadsAlone(q, inbufs, z);
    }
    ZeroLengthKeepsPlace(q, inbufs, z, k);
    assert IsCut(q, k, inbufs);
    CutWithoutZeroLength(q, RemoveAt(q, z), inbufs, z, k);
  }

  /**
    Dropping a zero-length argument leaves every other argument as it is: what remains is what the
    sweep of the shorter list gives, with pieces, offsets and flags.
   */
  lemma ZeroLengthIsInert(q: seq<Overlap>, inbufs: nat, z: nat)
    requires Swept(q, inbufs) && z < |q| && q[z].start == q[z].end
    ensures Swept(RemoveAt(q, z), inbufs)
  {
    SortedWithout(q, z);
    forall k' | 0 <= k' < |RemoveAt(q, z)|
      ensures IsCut(RemoveAt(q, z), k', inbufs) && RemoveAt(q, z)[k'].start <= RemoveAt(q, z)[k'].end
    {
      CutsWithoutZeroLength(q, inbufs, z, k');
    }
  }
}

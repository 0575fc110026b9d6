/** Ranges, duplicate-free lists and the sizes of sets of numbers. */
module Counting {

  ghost predicate Distinct(ps: seq<nat>) {
    forall i, j :: 0 <= i < j < |ps| ==> ps[i] != ps[j]
  }

  ghost predicate Below(ps: seq<nat>, n: nat) {
    forall j :: 0 <= j < |ps| ==> ps[j] < n
  }

  /** `ps` lists the indices 0..n once each. */
  ghost predicate Permutes(ps: seq<nat>, n: nat) {
    |ps| == n && Distinct(ps) && Below(ps, n)
  }

  function Range(lo: nat, hi: nat): set<nat>
    decreases hi - lo
  {
    if lo < hi then Range(lo + 1, hi) + {lo} else {}
  }

  lemma {:induction false} RangeFacts(lo: nat, hi: nat)
    ensures forall x :: x in Range(lo, hi) <==> lo <= x < hi
    ensures lo <= hi ==> |Range(lo, hi)| == hi - lo
    decreases hi - lo
  {
    if lo < hi {
      RangeFacts(lo + 1, hi);
    }
  }

  lemma DisjointSize(a: set<nat>, b: set<nat>)
    requires a !! b
    ensures |a + b| == |a| + |b|
  {
  }

  lemma {:induction false} DistinctSize(ps: seq<nat>, n: nat)
    requires n <= |ps| && Distinct(ps)
    ensures |set k | 0 <= k < n :: ps[k]| == n
  {
    if n > 0 {
      DistinctSize(ps, n - 1);
      assert (set k | 0 <= k < n :: ps[k]) == (set k | 0 <= k < n - 1 :: ps[k]) + {ps[n - 1]};
    }
  }

  /** A duplicate-free list of n indices below n names every one of them. */
  lemma PermutationCovers(ps: seq<nat>, n: nat, j: nat) returns (k: nat)
    requires Permutes(ps, n) && j < n
    ensures k < n && ps[k] == j
  {
    var named := set i | 0 <= i < n :: ps[i];
    DistinctSize(ps, n);
    RangeFacts(0, n);
    if j !in named {
      assert named <= Range(0, n) - {j};
      SubsetSize(named, Range(0, n) - {j});
      assert false;
    }
    k :| 0 <= k < n && ps[k] == j;
  }

  lemma SubsetSize(a: set<nat>, b: set<nat>)
    requires a <= b
    ensures |a| <= |b|
  {
    assert b == a + (b - a);
    DisjointSize(a, b - a);
  }

  function Without(ids: seq<nat>, id: nat): (r: seq<nat>)
    ensures |r| <= |ids|
  {
    if ids == [] then []
    else if ids[0] == id then Without(ids[1..], id)
    else [ids[0]] + Without(ids[1..], id)
  }

  lemma {:induction false} WithoutMembers(ids: seq<nat>, id: nat, x: nat)
    ensures x in Without(ids, id) <==> x in ids && x != id
  {
    if ids != [] {
      WithoutMembers(ids[1..], id, x);
      assert x in ids <==> x == ids[0] || x in ids[1..];
    }
  }

  lemma {:induction false} WithoutBag(ids: seq<nat>, id: nat)
    ensures multiset(Without(ids, id)) == multiset(ids)[id := 0]
  {
    if ids != [] {
      WithoutBag(ids[1..], id);
      assert ids == [ids[0]] + ids[1..];
    }
  }

  lemma {:induction false} WithoutDistinct(ids: seq<nat>, id: nat)
    requires Distinct(ids)
    ensures Distinct(Without(ids, id))
  {
    if ids != [] {
      WithoutDistinct(ids[1..], id);
      WithoutMembers(ids[1..], id, ids[0]);
    }
  }

  lemma {:induction false} WithoutSize(ids: seq<nat>, id: nat)
    requires Distinct(ids) && id in ids
    ensures |Without(ids, id)| == |ids| - 1
  {
    if ids[0] == id {
      WithoutAbsent(ids[1..], id);
    } else {
      WithoutSize(ids[1..], id);
    }
  }

  lemma {:induction false} WithoutAbsent(ids: seq<nat>, id: nat)
    requires id !in ids
    ensures Without(ids, id) == ids
  {
    if ids != [] {
      WithoutAbsent(ids[1..], id);
    }
  }

  /** x stands somewhere in front of y. */
  ghost predicate Before(ids: seq<nat>, x: nat, y: nat) {
    exists i, j :: 0 <= i < j < |ids| && ids[i] == x && ids[j] == y
  }

  lemma BeforeInTail(ids: seq<nat>, x: nat, y: nat)
    requires ids != []
    ensures Before(ids, x, y) <==> (ids[0] == x && y in ids[1..]) || Before(ids[1..], x, y)
  {
    var t := ids[1..];
    if ids[0] == x && y in t {
      var j :| 0 <= j < |t| && t[j] == y;
      assert ids[j + 1] == y;
    }
    if i, j :| 0 <= i < j < |t| && t[i] == x && t[j] == y {
      assert ids[i + 1] == x && ids[j + 1] == y;
    }
    if i, j :| 0 <= i < j < |ids| && ids[i] == x && ids[j] == y {
      assert t[j - 1] == y;
      assert i > 0 ==> t[i - 1] == x;
    }
  }

  lemma {:induction false} WithoutKeepsOrder(ids: seq<nat>, id: nat, x: nat, y: nat)
    ensures Before(Without(ids, id), x, y) <==> Before(ids, x, y) && x != id && y != id
  {
    if ids != [] {
      WithoutKeepsOrder(ids[1..], id, x, y);
      WithoutMembers(ids[1..], id, y);
      BeforeInTail(ids, x, y);
      if ids[0] != id {
        assert ([ids[0]] + Without(ids[1..], id))[1..] == Without(ids[1..], id);
        BeforeInTail(Without(ids, id), x, y);
      }
    }
  }
}

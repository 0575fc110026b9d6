/**
  Boot markers: the list of markers with its hash index (_create_boot_marker, find_entry,
  _destroy_boot_marker and boot_marker_cleanup).
 */
module BootMarkers {
  import opened Common
  import opened Counting

  const MARKER_STRING_WIDTH: nat := 40
  const BUCKETS: nat := 32

  type Id = nat

  datatype Marker = Marker(name: string, timer: nat)

  // ---------------------------------------------------------------------------------------
  // Names
  // ---------------------------------------------------------------------------------------

  function CharSumFrom(name: string, i: nat): nat
    requires i <= |name|
    decreases |name| - i
  {
    if i == |name| then 0 else Wrap32(name[i] as nat + CharSumFrom(name, i + 1))
  }

  /**
    calculate_marker_charsum, from the last character to the first.  The loop tests its counter last,
    so on the empty name it reads in front of the string: no result.
   */
  method CharSum(name: string) returns (r: Option<nat>)
    ensures r == if name == "" then None else Some(CharSumFrom(name, 0))
  {
    var sum, len: int := 0, |name|;
    while true
      invariant 0 <= len <= |name| && (len == 0 ==> name == "") && sum == CharSumFrom(name, len)
      decreases len
    {
      len := len - 1;
      if len < 0 {
        return None;
      }
      sum := Wrap32(sum + name[len] as nat);
      if len == 0 {
        break;
      }
    }
    r := Some(sum);
  }

  /** strscpy into the name field. */
  function Stored(name: string): string {
    if |name| < MARKER_STRING_WIDTH then name else name[..MARKER_STRING_WIDTH - 1]
  }

  /** strnstr finds `part` in `name`. */
  predicate Contains(name: string, part: string) {
    exists i :: 0 <= i <= |name| - |part| && OccursAt(name, part, i)
  }

  predicate OccursAt(name: string, part: string, i: nat)
    requires i + |part| <= |name|
  {
    name[i..i + |part|] == part
  }

  // ---------------------------------------------------------------------------------------
  // The list and its index
  // ---------------------------------------------------------------------------------------

  /** The markers by address, the list in order, the hash buckets and the counter. */
  datatype Markers = Markers(heap: map<Id, Marker>, list: seq<Id>, buckets: seq<seq<Id>>, num: int, next: Id) {

    function NameOf(id: Id): string {
      if id in heap then heap[id].name else ""
    }
  }

  function First(m: Markers, ids: seq<Id>, name: string): Option<Id> {
    if ids == [] then None
    else if m.NameOf(ids[0]) == name then Some(ids[0])
    else First(m, ids[1..], name)
  }

  /** The bucket of a name; `hash` is the kernel's hash of a 32-bit key to five bits. */
  function Bucket(hash: nat -> nat, name: string): nat {
    hash(CharSumFrom(name, 0)) % BUCKETS
  }

  function FindEntry(m: Markers, hash: nat -> nat, name: string): Option<Id>
    requires |m.buckets| == BUCKETS
  {
    First(m, m.buckets[Bucket(hash, name)], name)
  }

  /** The part of an insertion under the lock. */
  function Link(m: Markers, hash: nat -> nat, marker: Marker): Markers
    requires |m.buckets| == BUCKETS
  {
    var b := Bucket(hash, marker.name);
    Markers(m.heap[m.next := marker], m.list + [m.next], m.buckets[b := [m.next] + m.buckets[b]], m.num, m.next + 1)
  }

  /** The counter is raised after the lock has been released. */
  function Insert(m: Markers, hash: nat -> nat, marker: Marker): Markers
    requires |m.buckets| == BUCKETS
  {
    var m1 := Link(m, hash, marker);
    m1.(num := m1.num + 1)
  }

  function SetTimer(m: Markers, id: Id, timer: nat): Markers {
    if id in m.heap then m.(heap := m.heap[id := m.heap[id].(timer := timer)]) else m
  }

  /** The limit test; the counter is compared as an unsigned word, so a negative one is beyond the limit. */
  predicate Full(m: Markers, maxMarkers: nat) {
    m.num < 0 || m.num >= maxMarkers
  }

  /** _create_boot_marker when nothing else runs. */
  function Create(m: Markers, hash: nat -> nat, name: string, timer: nat, maxMarkers: nat, allocOk: bool): Markers
    requires |m.buckets| == BUCKETS
  {
    if Full(m, maxMarkers) then m
    else
      var f := FindEntry(m, hash, name);
      if f.Some? then SetTimer(m, f.value, timer)
      else if !allocOk then m
      else Insert(m, hash, Marker(Stored(name), timer))
  }

  function Drop(m: Markers, id: Id): Markers {
    Markers(m.heap - {id}, Without(m.list, id), seq(|m.buckets|,
        b requires 0 <= b < |m.buckets| => Without(m.buckets[b], id)),
            m.num - 1, m.next)
  }

  /** The loop of _destroy_boot_marker over the list as it was. */
  function DropMatching(m: Markers, ids: seq<Id>, part: string): Markers
    decreases |ids|
  {
    if ids == [] then m
    else DropMatching(if Contains(m.NameOf(ids[0]), part) then Drop(m, ids[0]) else m, ids[1..], part)
  }

  lemma DropMatchingStep(m: Markers, ids: seq<Id>, i: nat, part: string)
    requires i < |ids|
    ensures DropMatching(m, ids[i..], part) ==
      DropMatching(if Contains(m.NameOf(ids[i]), part) then Drop(m, ids[i]) else m, ids[i + 1..], part)
  {
    assert ids[i..][0] == ids[i] && ids[i..][1..] == ids[i + 1..];
  }

  /** Placing the empty name reads in front of the string, unless the list is full. */
  predicate Strays(m: Markers, name: string, maxMarkers: nat) {
    name == "" && !Full(m, maxMarkers)
  }

  // ---------------------------------------------------------------------------------------
  // The invariant
  // ---------------------------------------------------------------------------------------

  ghost predicate EntryOk(m: Markers, hash: nat -> nat, id: Id) {
    && (id in m.list ==>
          id in m.heap && m.heap[id].name != "" && |m.heap[id].name| < MARKER_STRING_WIDTH && id < m.next)
    && (forall b :: 0 <= b < |m.buckets| ==> IndexedOk(m, hash, id, b))
  }

  /** A bucket holds exactly the listed markers whose names hash to it. */
  ghost predicate IndexedOk(m: Markers, hash: nat -> nat, id: Id, b: nat)
    requires b < |m.buckets|
  {
    id in m.buckets[b] <==> id in m.list && b == Bucket(hash, m.NameOf(id))
  }

  /** The list has no marker twice and the index agrees with it. */
  ghost predicate Indexed(m: Markers, hash: nat -> nat) {
    |m.buckets| == BUCKETS && Distinct(m.list) && forall id :: EntryOk(m, hash, id)
  }

  /** What holds between whole operations: also the counter and the limit are right. */
  ghost predicate Inv(m: Markers, hash: nat -> nat, maxMarkers: nat) {
    Indexed(m, hash) && m.num == |m.list| <= maxMarkers
  }

  ghost predicate UniqueNames(m: Markers) {
    forall id, x :: id in m.list && x in m.list && m.NameOf(id) == m.NameOf(x) ==> id == x
  }

  lemma {:induction false} FirstFacts(m: Markers, ids: seq<Id>, name: string)
    ensures match First(m, ids, name)
      case Some(id) => id in ids && m.NameOf(id) == name
      case None => forall id :: id in ids ==> m.NameOf(id) != name
  {
    if ids != [] && m.NameOf(ids[0]) != name {
      FirstFacts(m, ids[1..], name);
      assert forall id :: id in ids ==> id == ids[0] || id in ids[1..];
    }
  }

  /** The index finds a name exactly when a search of the list does, and then the same marker if names are unique. */
  lemma FindAgreesWithList(m: Markers, hash: nat -> nat, name: string)
    requires Indexed(m, hash)
    ensures FindEntry(m, hash, name).Some? <==> First(m, m.list, name).Some?
    ensures UniqueNames(m) ==> FindEntry(m, hash, name) == First(m, m.list, name)
    ensures FindEntry(m, hash, name).Some? ==>
      var id := FindEntry(m, hash, name).value; id in m.list && id in m.heap && m.NameOf(id) == name
  {
    var b := Bucket(hash, name);
    FirstFacts(m, m.buckets[b], name);
    FirstFacts(m, m.list, name);
    var f, l := FindEntry(m, hash, name), First(m, m.list, name);
    if f.Some? {
      assert EntryOk(m, hash, f.value) && IndexedOk(m, hash, f.value, b);
    }
    if l.Some? {
      assert EntryOk(m, hash, l.value) && IndexedOk(m, hash, l.value, b);
    }
  }

  lemma LinkKeeps(m: Markers, hash: nat -> nat, marker: Marker)
    requires Indexed(m, hash) && marker.name != "" && |marker.name| < MARKER_STRING_WIDTH
    ensures Indexed(Link(m, hash, marker), hash)
  {
    var m' := Link(m, hash, marker);
    assert EntryOk(m, hash, m.next);
    forall id ensures EntryOk(m', hash, id) {
      assert EntryOk(m, hash, id);
      forall b | 0 <= b < |m'.buckets| ensures IndexedOk(m', hash, id, b) {
        assert IndexedOk(m, hash, id, b);
      }
    }
  }

  /** The counter is no part of the index. */
  lemma CountKeeps(m: Markers, hash: nat -> nat, num: int)
    requires Indexed(m, hash)
    ensures Indexed(m.(num := num), hash)
  {
    var m' := m.(num := num);
    forall id ensures EntryOk(m', hash, id) {
      assert EntryOk(m, hash, id);
      forall b | 0 <= b < |m'.buckets| ensures IndexedOk(m', hash, id, b) {
        assert IndexedOk(m, hash, id, b);
      }
    }
  }

  lemma SetTimerKeeps(m: Markers, hash: nat -> nat, id: Id, timer: nat)
    requires Indexed(m, hash)
    ensures Indexed(SetTimer(m, id, timer), hash)
    ensures forall x :: SetTimer(m, id, timer).NameOf(x) == m.NameOf(x)
  {
    var m' := SetTimer(m, id, timer);
    forall x ensures EntryOk(m', hash, x) {
      assert EntryOk(m, hash, x);
      forall b | 0 <= b < |m'.buckets| ensures IndexedOk(m', hash, x, b) {
        assert IndexedOk(m, hash, x, b);
      }
    }
  }

  lemma DropKeeps(m: Markers, hash: nat -> nat, id: Id)
    requires Indexed(m, hash) && id in m.list
    ensures Indexed(Drop(m, id), hash) && |Drop(m, id).list| == |m.list| - 1
    ensures forall x :: x in Drop(m, id).list <==> x in m.list && x != id
    ensures forall x :: x != id ==> Drop(m, id).NameOf(x) == m.NameOf(x)
  {
    var m' := Drop(m, id);
    WithoutDistinct(m.list, id);
    WithoutSize(m.list, id);
    forall x ensures EntryOk(m', hash, x) && (x in m'.list <==> x in m.list && x != id) {
      assert EntryOk(m, hash, x);
      WithoutMembers(m.list, id, x);
      forall b | 0 <= b < |m'.buckets| ensures IndexedOk(m', hash, x, b) {
        assert IndexedOk(m, hash, x, b);
        WithoutMembers(m.buckets[b], id, x);
      }
    }
  }

  /** Destroying a name removes exactly the markers whose names contain it, and counts them down. */
  lemma {:induction false} DropMatchingKeeps(m: Markers, hash: nat -> nat, ids: seq<Id>, part: string)
    requires Indexed(m, hash) && Distinct(ids) && forall i :: 0 <= i < |ids| ==> ids[i] in m.list
    ensures var m' := DropMatching(m, ids, part);
      && Indexed(m', hash) && m'.num - |m'.list| == m.num - |m.list| && |m'.list| <= |m.list|
      && (forall x :: x in m'.list <==> x in m.list && !(x in ids && Contains(m.NameOf(x), part)))
      && (forall x :: x in m'.list ==> m'.NameOf(x) == m.NameOf(x))
    decreases |ids|
  {
    if ids != [] {
      var id := ids[0];
      var m1 := m;
      if Contains(m.NameOf(id), part) {
        DropKeeps(m, hash, id);
        m1 := Drop(m, id);
      }
      assert forall i :: 0 <= i < |ids[1..]| ==> ids[1..][i] == ids[i + 1] && ids[i + 1] != id;
      DropMatchingKeeps(m1, hash, ids[1..], part);
      assert forall x :: x in ids <==> x == id || x in ids[1..];
    }
  }

  /** strnstr finds the text exactly in the names that have it somewhere between a front and a back. */
  lemma ContainsIff(name: string, part: string)
    ensures Contains(name, part) <==> exists front, back :: name == front + part + back
  {
    if i :| 0 <= i <= |name| - |part| && OccursAt(name, part, i) {
      assert name == name[..i] + part + name[i + |part|..];
    }
    if front, back :| name == front + part + back {
      assert OccursAt(name, part, |front|);
    }
  }

  /** Destroying leaves every other marker as it is and in its order. */
  lemma {:induction false} DropMatchingKeepsRest(m: Markers, hash: nat -> nat, ids: seq<Id>, part: string, x: Id, y: Id)
    requires Indexed(m, hash) && Distinct(ids) && forall i :: 0 <= i < |ids| ==> ids[i] in m.list
    ensures var m' := DropMatching(m, ids, part);
      && (x in m'.list ==> x in m.heap && x in m'.heap && m'.heap[x] == m.heap[x])
      && (Before(m'.list, x, y) <==> Before(m.list, x, y) && x in m'.list && y in m'.list)
    decreases |ids|
  {
    if ids == [] {
      assert EntryOk(m, hash, x);
    } else {
      var id := ids[0];
      var m1 := m;
      if Contains(m.NameOf(id), part) {
        DropKeeps(m, hash, id);
        m1 := Drop(m, id);
        WithoutKeepsOrder(m.list, id, x, y);
      }
      assert forall i :: 0 <= i < |ids[1..]| ==> ids[1..][i] == ids[i + 1] && ids[i + 1] != id;
      DropMatchingKeepsRest(m1, hash, ids[1..], part, x, y);
      DropMatchingKeeps(m1, hash, ids[1..], part);
    }
  }

  /** Destroying the empty name destroys every marker. */
  lemma DropAllEmpties(m: Markers, hash: nat -> nat)
    requires Indexed(m, hash)
    ensures DropMatching(m, m.list, "").list == [] && DropMatching(m, m.list, "").num == m.num - |m.list|
  {
    DropMatchingKeeps(m, hash, m.list, "");
    var m' := DropMatching(m, m.list, "");
    assert m'.list != [] ==> m'.list[0] in m'.list;
    forall x ensures x !in m'.list {
      ContainsIff(m.NameOf(x), "");
      assert m.NameOf(x) == "" + "" + m.NameOf(x);
    }
  }

  /**
    A placement that nothing overlaps: at the limit nothing happens; otherwise a listed marker of the
    name gets the new time and no other marker changes, or, if there is none and memory is to be had, a
    marker with the name cut to its field and the time goes to the end of the list.
   */
  lemma CreateDoes(m: Markers, hash: nat -> nat, name: string, timer: nat, maxMarkers: nat, allocOk: bool)
    requires Inv(m, hash, maxMarkers) && !Strays(m, name, maxMarkers)
    ensures var m' := Create(m, hash, name, timer, maxMarkers, allocOk);
      && (|m.list| == maxMarkers ==> m' == m)
      && (|m.list| < maxMarkers && (exists id <- m.list :: m.NameOf(id) == name) ==>
            exists id <- m.list :: m.NameOf(id) == name && id in m.heap
              && m' == m.(heap := m.heap[id := m.heap[id].(timer := timer)]))
      && (|m.list| < maxMarkers && (forall id <- m.list :: m.NameOf(id) != name) ==>
            if allocOk then
              && m'.list == m.list + [m.next] && m'.num == m.num + 1 && m'.next == m.next + 1
              && m'.heap == m.heap[m.next := Marker(if |name| < 40 then name else name[..39], timer)]
            else m' == m)
  {
    FindAgreesWithList(m, hash, name);
    FirstFacts(m, m.list, name);
  }

  /** A linked marker keeps names unique exactly when its name is not there yet. */
  lemma LinkUniqueIff(m: Markers, hash: nat -> nat, marker: Marker)
    requires Indexed(m, hash) && UniqueNames(m)
    ensures UniqueNames(Link(m, hash, marker)) <==> First(m, m.list, marker.name).None?
  {
    FirstFacts(m, m.list, marker.name);
    var m' := Link(m, hash, marker);
    assert EntryOk(m, hash, m.next);
    assert forall id :: id in m.list ==> m'.NameOf(id) == m.NameOf(id) && id != m.next;
    assert m'.NameOf(m.next) == marker.name && m.next in m'.list;
    if First(m, m.list, marker.name).Some? {
      assert First(m, m.list, marker.name).value in m'.list;
    }
  }

  /** A name that fits the field is stored as it is. */
  lemma CreateKeeps(m: Markers, hash: nat -> nat, name: string, timer: nat, maxMarkers: nat, allocOk: bool)
    requires Inv(m, hash, maxMarkers) && !Strays(m, name, maxMarkers)
    ensures Inv(Create(m, hash, name, timer, maxMarkers, allocOk), hash, maxMarkers)
    ensures UniqueNames(m) && |name| < MARKER_STRING_WIDTH ==>
      UniqueNames(Create(m, hash, name, timer, maxMarkers, allocOk))
  {
    if m.num < maxMarkers {
      FindAgreesWithList(m, hash, name);
      var f := FindEntry(m, hash, name);
      if f.Some? {
        SetTimerKeeps(m, hash, f.value, timer);
      } else if allocOk {
        var marker := Marker(Stored(name), timer);
        var m1 := Link(m, hash, marker);
        LinkKeeps(m, hash, marker);
        CountKeeps(m1, hash, m1.num + 1);
        if UniqueNames(m) && |name| < MARKER_STRING_WIDTH {
          LinkUniqueIff(m, hash, marker);
          assert forall id :: Insert(m, hash, marker).NameOf(id) == m1.NameOf(id);
        }
      }
    }
  }

  /**
    A new marker breaks the uniqueness of names exactly when it is made although its shortened name
    is already there, which takes a name that does not fit the field.
   */
  lemma UniqueIffShortenedIsNew(m: Markers, hash: nat -> nat, name: string, timer: nat, maxMarkers: nat)
    requires Inv(m, hash, maxMarkers) && name != "" && UniqueNames(m)
    requires m.num < maxMarkers && FindEntry(m, hash, name).None?
    ensures UniqueNames(Create(m, hash, name, timer, maxMarkers, true)) <==> First(m, m.list, Stored(name)).None?
    ensures |name| < MARKER_STRING_WIDTH ==> First(m, m.list, Stored(name)).None?
  {
    FindAgreesWithList(m, hash, name);
    LinkUniqueIff(m, hash, Marker(Stored(name), timer));
    var made, linked := Create(m, hash, name, timer, maxMarkers, true), Link(m, hash, Marker(Stored(name), timer));
    assert forall id :: made.NameOf(id) == linked.NameOf(id);
  }

  const EMPTY: Markers := Markers(map[], [], seq(BUCKETS, _ => []), 0, 0)

  lemma EmptyOk(hash: nat -> nat, maxMarkers: nat)
    ensures Inv(EMPTY, hash, maxMarkers)
  {
    forall id ensures EntryOk(EMPTY, hash, id) {
      forall b | 0 <= b < |EMPTY.buckets| ensures IndexedOk(EMPTY, hash, id, b) {
      }
    }
  }

  /** A name that no listed marker carries is not found. */
  lemma NotAmong(m: Markers, hash: nat -> nat, name: string)
    requires Indexed(m, hash) && forall id <- m.list :: m.NameOf(id) != name
    ensures FindEntry(m, hash, name).None?
  {
    FindAgreesWithList(m, hash, name);
    FirstFacts(m, m.list, name);
  }

  // ---------------------------------------------------------------------------------------
  // Names that do not fit
  // ---------------------------------------------------------------------------------------

  /** 39 characters, all that a marker can hold. */
  const STEM: string := seq(MARKER_STRING_WIDTH - 1, _ => 'M')

  /** A name of 40 characters is made as a marker of its own, whatever the list holds. */
  lemma LongNameIsMade(m: Markers, hash: nat -> nat, maxMarkers: nat, name: string, timer: nat)
    requires Inv(m, hash, maxMarkers) && m.num < maxMarkers && |name| == MARKER_STRING_WIDTH
    ensures Create(m, hash, name, timer, maxMarkers, true)
            == Insert(m, hash, Marker(name[..MARKER_STRING_WIDTH - 1], timer))
    ensures Inv(Create(m, hash, name, timer, maxMarkers, true), hash, maxMarkers)
    ensures FindEntry(m, hash, name).None?
  {
    CreateKeeps(m, hash, name, timer, maxMarkers, true);
    forall id | id in m.list ensures m.NameOf(id) != name {
      assert EntryOk(m, hash, id);
    }
    NotAmong(m, hash, name);
  }

  /** Two names of 40 characters that are stored as one: both are made, and neither can be found. */
  lemma LongNamesCollide(hash: nat -> nat, maxMarkers: nat) returns (m: Markers)
    requires maxMarkers > 2
    ensures m == Create(Create(EMPTY, hash, STEM + "a", 1, maxMarkers, true), hash, STEM + "b", 2, maxMarkers, true)
    ensures |m.list| == 2 && !UniqueNames(m) && |m.buckets| == BUCKETS
    ensures FindEntry(m, hash, STEM + "a").None? && FindEntry(m, hash, STEM + "b").None?
  {
    EmptyOk(hash, maxMarkers);
    LongNameIsMade(EMPTY, hash, maxMarkers, STEM + "a", 1);
    var m1 := Create(EMPTY, hash, STEM + "a", 1, maxMarkers, true);
    LongNameIsMade(m1, hash, maxMarkers, STEM + "b", 2);
    m := Create(m1, hash, STEM + "b", 2, maxMarkers, true);
    assert (STEM + "a")[..39] == STEM == (STEM + "b")[..39];
    assert m.list == [0, 1] && m.NameOf(0) == m.NameOf(1) == STEM && 0 in m.list && 1 in m.list;
    LongNameIsMade(m, hash, maxMarkers, STEM + "a", 1);
    LongNameIsMade(m, hash, maxMarkers, STEM + "b", 2);
  }
}

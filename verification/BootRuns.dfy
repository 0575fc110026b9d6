/**
  Runs of the boot marker driver in which operations overlap.  Only the removing loops and the linking
  of a new marker are under the lock: a placement tests the limit, looks the name up, and then either
  stores the time in the marker it found or links a new one and counts it, each step on its own.
 */
module BootRuns {
  import opened Common
  import opened Counting
  import opened BootMarkers

  /** Where a placement is that has begun. */
  datatype Phase =
    | Admitted(name: string, timer: nat)  // below the limit
    | Hit(id: Id, timer: nat)             // find_entry returned a marker
    | Missed(name: string, timer: nat)    // find_entry returned none
    | Linked                              // in the list, not counted yet

  type Pid = nat

  datatype World = World(m: Markers, pending: map<Pid, Phase>)

  datatype Step =
    | Begin(p: Pid, name: string, timer: nat)
    | Find(p: Pid)
    | Touch(p: Pid)
    | Enter(p: Pid, allocOk: bool)
    | Count(p: Pid)
    | Destroy(part: string)
    | Cleanup

  /** Looking the empty name up reads in front of the string. */
  predicate Survives(w: World, s: Step) {
    s.Find? && s.p in w.pending && w.pending[s.p].Admitted? ==> w.pending[s.p].name != ""
  }

  /** The step, where the placement is in the phase for it; cleanup destroys every marker. */
  function Next(w: World, s: Step, hash: nat -> nat, maxMarkers: nat): World
    requires |w.m.buckets| == BUCKETS
  {
    match s
    case Begin(p, name, timer) =>
      if p in w.pending || Full(w.m, maxMarkers) then w else w.(pending := w.pending[p := Admitted(name, timer)])
    case Find(p) =>
      if p !in w.pending || !w.pending[p].Admitted? then w
      else
        var a := w.pending[p];
        var f := FindEntry(w.m, hash, a.name);
        w.(pending := w.pending[p := if f.Some? then Hit(f.value, a.timer) else Missed(a.name, a.timer)])
    case Touch(p) =>
      if p !in w.pending || !w.pending[p].Hit? then w
      else World(SetTimer(w.m, w.pending[p].id, w.pending[p].timer), w.pending - {p})
    case Enter(p, allocOk) =>
      if p !in w.pending || !w.pending[p].Missed? then w
      else if !allocOk then w.(pending := w.pending - {p})
      else World(Link(w.m, hash, NewMarker(w, p)), w.pending[p := Linked])
    case Count(p) =>
      if p !in w.pending || !w.pending[p].Linked? then w
      else World(w.m.(num := w.m.num + 1), w.pending - {p})
    case Destroy(part) => w.(m := DropMatching(w.m, w.m.list, part))
    case Cleanup => w.(m := DropMatching(w.m, w.m.list, ""))
  }

  /** The marker that placement p links. */
  function NewMarker(w: World, p: Pid): Marker
    requires p in w.pending && w.pending[p].Missed?
  {
    Marker(Stored(w.pending[p].name), w.pending[p].timer)
  }

  ghost predicate Reaches(w: World, steps: seq<Step>, hash: nat -> nat, maxMarkers: nat, w': World)
    decreases |steps|
  {
    if steps == [] then w' == w
    else
      && |w.m.buckets| == BUCKETS && Survives(w, steps[0])
      && Reaches(Next(w, steps[0], hash, maxMarkers), steps[1..], hash, maxMarkers, w')
  }

  const START: World := World(EMPTY, map[])

  // ---------------------------------------------------------------------------------------
  // Every interleaving
  // ---------------------------------------------------------------------------------------

  function Uncounted(pending: map<Pid, Phase>): set<Pid> {
    set p | p in pending && pending[p].Linked?
  }

  ghost predicate Named(w: World) {
    forall p :: p in w.pending && w.pending[p].Missed? ==> w.pending[p].name != ""
  }

  /** The index agrees with the list, and the counter lags by the markers linked and not counted. */
  ghost predicate Sound(w: World, hash: nat -> nat) {
    Indexed(w.m, hash) && w.m.num + |Uncounted(w.pending)| == |w.m.list| && Named(w)
  }

  lemma UncountedSet(pending: map<Pid, Phase>, p: Pid, phase: Phase)
    requires p !in Uncounted(pending)
    ensures |Uncounted(pending[p := phase])| == |Uncounted(pending)| + if phase.Linked? then 1 else 0
  {
    assert Uncounted(pending[p := phase]) == Uncounted(pending) + if phase.Linked? then {p} else {};
  }

  lemma UncountedDrop(pending: map<Pid, Phase>, p: Pid)
    requires p in pending
    ensures |Uncounted(pending - {p})| == |Uncounted(pending)| - if pending[p].Linked? then 1 else 0
  {
    assert Uncounted(pending - {p}) == Uncounted(pending) - {p};
  }

  lemma PlacementStepKeeps(w: World, s: Step, hash: nat -> nat, maxMarkers: nat)
    requires Sound(w, hash) && Survives(w, s) && !s.Destroy? && !s.Cleanup?
    ensures Sound(Next(w, s, hash, maxMarkers), hash)
  {
    match s
    case Begin(p, name, timer) =>
      if p !in w.pending {
        UncountedSet(w.pending, p, Admitted(name, timer));
      }
    case Find(p) =>
      if p in w.pending && w.pending[p].Admitted? {
        UncountedSet(w.pending, p, Next(w, s, hash, maxMarkers).pending[p]);
      }
    case Touch(p) =>
      if p in w.pending && w.pending[p].Hit? {
        SetTimerKeeps(w.m, hash, w.pending[p].id, w.pending[p].timer);
        UncountedDrop(w.pending, p);
      }
    case Enter(p, allocOk) =>
      if p in w.pending && w.pending[p].Missed? {
        LinkKeeps(w.m, hash, NewMarker(w, p));
        UncountedDrop(w.pending, p);
        UncountedSet(w.pending, p, Linked);
      }
    case Count(p) =>
      if p in w.pending && w.pending[p].Linked? {
        CountKeeps(w.m, hash, w.m.num + 1);
        UncountedDrop(w.pending, p);
      }
  }

  lemma NextKeeps(w: World, s: Step, hash: nat -> nat, maxMarkers: nat)
    requires Sound(w, hash) && Survives(w, s)
    ensures Sound(Next(w, s, hash, maxMarkers), hash)
  {
    if s.Destroy? {
      DropMatchingKeeps(w.m, hash, w.m.list, s.part);
    } else if s.Cleanup? {
      DropMatchingKeeps(w.m, hash, w.m.list, "");
    } else {
      PlacementStepKeeps(w, s, hash, maxMarkers);
    }
  }

  lemma {:induction false} RunKeeps(w: World, steps: seq<Step>, hash: nat -> nat, maxMarkers: nat, w': World)
    requires Sound(w, hash) && Reaches(w, steps, hash, maxMarkers, w')
    ensures Sound(w', hash)
    decreases |steps|
  {
    if steps != [] {
      NextKeeps(w, steps[0], hash, maxMarkers);
      RunKeeps(Next(w, steps[0], hash, maxMarkers), steps[1..], hash, maxMarkers, w');
    }
  }

  lemma StartIsSound(hash: nat -> nat)
    ensures Sound(START, hash)
  {
    EmptyOk(hash, 0);
    assert Uncounted(START.pending) == {};
  }

  /**
    In every interleaving: the index finds a name exactly when the list holds it, and then a listed
    marker of that name; and the counter is the length of the list but for the markers linked and not
    counted yet.
   */
  lemma IndexIsSound(steps: seq<Step>, hash: nat -> nat, maxMarkers: nat, w: World, name: string)
    requires Reaches(START, steps, hash, maxMarkers, w)
    ensures |w.m.buckets| == BUCKETS
    ensures FindEntry(w.m, hash, name).Some? <==> exists id <- w.m.list :: w.m.NameOf(id) == name
    ensures FindEntry(w.m, hash, name).Some? ==>
      var id := FindEntry(w.m, hash, name).value; id in w.m.list && w.m.NameOf(id) == name
    ensures w.m.num + |Uncounted(w.pending)| == |w.m.list|
  {
    StartIsSound(hash);
    RunKeeps(START, steps, hash, maxMarkers, w);
    FindAgreesWithList(w.m, hash, name);
    FirstFacts(w.m, w.m.list, name);
  }

  // ---------------------------------------------------------------------------------------
  // What the other operations do at any time
  // ---------------------------------------------------------------------------------------

  /**
    Destroying takes away exactly the markers whose names have the text somewhere; the others stay as
    they are, in order.
   */
  lemma DestroyTakesMatching(w: World, part: string, hash: nat -> nat, maxMarkers: nat, x: Id, y: Id)
    requires Sound(w, hash)
    ensures var w' := Next(w, Destroy(part), hash, maxMarkers);
      && (x in w'.m.list <==> x in w.m.list && !exists front, back :: w.m.NameOf(x) == front + part + back)
      && (x in w'.m.list ==> x in w.m.heap && x in w'.m.heap && w'.m.heap[x] == w.m.heap[x])
      && (Before(w'.m.list, x, y) <==> Before(w.m.list, x, y) && x in w'.m.list && y in w'.m.list)
      && w'.m.num - |w'.m.list| == w.m.num - |w.m.list| && w'.pending == w.pending
  {
    DropMatchingKeeps(w.m, hash, w.m.list, part);
    DropMatchingKeepsRest(w.m, hash, w.m.list, part, x, y);
    ContainsIff(w.m.NameOf(x), part);
  }

  lemma CleanupEmpties(w: World, hash: nat -> nat, maxMarkers: nat)
    requires Sound(w, hash)
    ensures var w' := Next(w, Cleanup, hash, maxMarkers);
      w'.m.list == [] && w'.m.num == -|Uncounted(w.pending)| && w'.pending == w.pending
  {
    DropAllEmpties(w.m, hash);
  }

  /**
    A placement stores its time in the marker that it has found and in no other, whatever has happened
    since; if that marker is gone by then, no marker changes.
   */
  lemma TouchStores(w: World, p: Pid, hash: nat -> nat, maxMarkers: nat)
    requires Sound(w, hash) && p in w.pending && w.pending[p].Hit?
    ensures var id, w' := w.pending[p].id, Next(w, Touch(p), hash, maxMarkers);
      && w'.pending == w.pending - {p} && w'.m.list == w.m.list && w'.m.num == w.m.num
      && (id in w.m.list ==> id in w'.m.heap && w'.m.heap[id] == Marker(w.m.NameOf(id), w.pending[p].timer))
      && forall x :: x in w.m.list && x != id ==> x in w.m.heap && x in w'.m.heap && w'.m.heap[x] == w.m.heap[x]
  {
    forall x | x in w.m.list ensures x in w.m.heap {
      assert EntryOk(w.m, hash, x);
    }
  }

  // ---------------------------------------------------------------------------------------
  // Unique names and the limit
  // ---------------------------------------------------------------------------------------

  /** The step links a marker. */
  predicate Links(w: World, s: Step) {
    s.Enter? && s.allocOk && s.p in w.pending && w.pending[s.p].Missed?
  }

  /** Names stay unique exactly when a marker is linked under a name that is not there at that time. */
  lemma UniqueStepIff(w: World, s: Step, hash: nat -> nat, maxMarkers: nat)
    requires Sound(w, hash) && Survives(w, s) && UniqueNames(w.m)
    ensures UniqueNames(Next(w, s, hash, maxMarkers).m) <==>
      (Links(w, s) ==> First(w.m, w.m.list, NewMarker(w, s.p).name).None?)
  {
    if Links(w, s) {
      LinkUniqueIff(w.m, hash, NewMarker(w, s.p));
    } else if s.Destroy? {
      DropMatchingKeeps(w.m, hash, w.m.list, s.part);
    } else if s.Cleanup? {
      DropMatchingKeeps(w.m, hash, w.m.list, "");
    } else if s.Touch? && s.p in w.pending && w.pending[s.p].Hit? {
      SetTimerKeeps(w.m, hash, w.pending[s.p].id, w.pending[s.p].timer);
    } else {
      assert forall id :: Next(w, s, hash, maxMarkers).m.NameOf(id) == w.m.NameOf(id);
    }
  }

  /** The list stays within the limit exactly when a marker is linked below it. */
  lemma LimitStepIff(w: World, s: Step, hash: nat -> nat, maxMarkers: nat)
    requires Sound(w, hash) && Survives(w, s) && |w.m.list| <= maxMarkers
    ensures |Next(w, s, hash, maxMarkers).m.list| <= maxMarkers <==> (Links(w, s) ==> |w.m.list| < maxMarkers)
  {
    if s.Destroy? {
      DropMatchingKeeps(w.m, hash, w.m.list, s.part);
    } else if s.Cleanup? {
      DropMatchingKeeps(w.m, hash, w.m.list, "");
    }
  }

  ghost predicate Good(w: World, maxMarkers: nat) {
    UniqueNames(w.m) && |w.m.list| <= maxMarkers
  }

  predicate GoodStep(w: World, s: Step, maxMarkers: nat) {
    Links(w, s) ==> First(w.m, w.m.list, NewMarker(w, s.p).name).None? && |w.m.list| < maxMarkers
  }

  /** Every state of the run is good. */
  ghost predicate GoodThroughout(w: World, steps: seq<Step>, hash: nat -> nat, maxMarkers: nat)
    decreases |steps|
  {
    && Good(w, maxMarkers)
    && (steps != [] && |w.m.buckets| == BUCKETS ==>
          GoodThroughout(Next(w, steps[0], hash, maxMarkers), steps[1..], hash, maxMarkers))
  }

  ghost predicate AllGoodSteps(w: World, steps: seq<Step>, hash: nat -> nat, maxMarkers: nat)
    decreases |steps|
  {
    steps != [] && |w.m.buckets| == BUCKETS ==>
      && GoodStep(w, steps[0], maxMarkers)
      && AllGoodSteps(Next(w, steps[0], hash, maxMarkers), steps[1..], hash, maxMarkers)
  }

  /**
    Names are unique and the list within its limit throughout a run if and only if every marker is
    linked below the limit and under a name that is not listed at that moment.
   */
  lemma {:induction false} GoodThroughoutIff(w: World, steps: seq<Step>, hash: nat -> nat, maxMarkers: nat, w': World)
    requires Sound(w, hash) && Good(w, maxMarkers) && Reaches(w, steps, hash, maxMarkers, w')
    ensures GoodThroughout(w, steps, hash, maxMarkers) <==> AllGoodSteps(w, steps, hash, maxMarkers)
    decreases |steps|
  {
    if steps != [] {
      var w1 := Next(w, steps[0], hash, maxMarkers);
      UniqueStepIff(w, steps[0], hash, maxMarkers);
      LimitStepIff(w, steps[0], hash, maxMarkers);
      NextKeeps(w, steps[0], hash, maxMarkers);
      if GoodStep(w, steps[0], maxMarkers) {
        GoodThroughoutIff(w1, steps[1..], hash, maxMarkers, w');
      } else {
        assert !Good(w1, maxMarkers);
      }
    }
  }

  // ---------------------------------------------------------------------------------------
  // One placement at a time
  // ---------------------------------------------------------------------------------------

  predicate Short(s: Step) {
    s.Begin? ==> |s.name| < MARKER_STRING_WIDTH
  }

  /** No placement begins before the one in front of it has ended; destroying may overlap. */
  ghost predicate Serial(w: World, steps: seq<Step>, hash: nat -> nat, maxMarkers: nat)
    decreases |steps|
  {
    steps != [] && |w.m.buckets| == BUCKETS ==>
      && (steps[0].Begin? ==> w.pending == map[])
      && Serial(Next(w, steps[0], hash, maxMarkers), steps[1..], hash, maxMarkers)
  }

  /** What the only placement in progress has found still holds. */
  ghost predicate PhaseOk(w: World, p: Pid, maxMarkers: nat)
    requires p in w.pending
  {
    && (forall q :: q in w.pending ==> q == p)
    && (w.pending[p].Admitted? ==> |w.pending[p].name| < MARKER_STRING_WIDTH && |w.m.list| < maxMarkers)
    && (w.pending[p].Missed? ==>
          && |w.pending[p].name| < MARKER_STRING_WIDTH && |w.m.list| < maxMarkers
          && First(w.m, w.m.list, w.pending[p].name).None?)
  }

  ghost predicate SerialOk(w: World, hash: nat -> nat, maxMarkers: nat) {
    Sound(w, hash) && Good(w, maxMarkers) && forall p :: p in w.pending ==> PhaseOk(w, p, maxMarkers)
  }

  lemma DropKeepsSerial(w: World, part: string, hash: nat -> nat, maxMarkers: nat)
    requires SerialOk(w, hash, maxMarkers)
    ensures SerialOk(w.(m := DropMatching(w.m, w.m.list, part)), hash, maxMarkers)
  {
    var w' := w.(m := DropMatching(w.m, w.m.list, part));
    DropMatchingKeeps(w.m, hash, w.m.list, part);
    forall p | p in w'.pending ensures PhaseOk(w', p, maxMarkers) {
      assert PhaseOk(w, p, maxMarkers);
      if w.pending[p].Missed? {
        FirstFacts(w.m, w.m.list, w.pending[p].name);
        FirstFacts(w'.m, w'.m.list, w.pending[p].name);
      }
    }
  }

  lemma SerialStep(w: World, s: Step, hash: nat -> nat, maxMarkers: nat)
    requires SerialOk(w, hash, maxMarkers) && Survives(w, s) && Short(s) && (s.Begin? ==> w.pending == map[])
    ensures SerialOk(Next(w, s, hash, maxMarkers), hash, maxMarkers) && GoodStep(w, s, maxMarkers)
  {
    if s.Destroy? {
      DropKeepsSerial(w, s.part, hash, maxMarkers);
    } else if s.Cleanup? {
      DropKeepsSerial(w, "", hash, maxMarkers);
    } else {
      var w' := Next(w, s, hash, maxMarkers);
      assert s.p in w.pending ==> PhaseOk(w, s.p, maxMarkers);
      NextKeeps(w, s, hash, maxMarkers);
      UniqueStepIff(w, s, hash, maxMarkers);
      LimitStepIff(w, s, hash, maxMarkers);
      if s.Begin? {
        assert Uncounted(w.pending) == {};
      }
      if s.Find? && s.p in w.pending && w.pending[s.p].Admitted? {
        FindAgreesWithList(w.m, hash, w.pending[s.p].name);
      }
      forall p | p in w'.pending ensures PhaseOk(w', p, maxMarkers) {
        assert p in w.pending ==> PhaseOk(w, p, maxMarkers);
      }
    }
  }

  lemma {:induction false} SerialRun(w: World, steps: seq<Step>, hash: nat -> nat, maxMarkers: nat, w': World)
    requires SerialOk(w, hash, maxMarkers) && Reaches(w, steps, hash, maxMarkers, w')
    requires Serial(w, steps, hash, maxMarkers) && forall s <- steps :: Short(s)
    ensures SerialOk(w', hash, maxMarkers) && AllGoodSteps(w, steps, hash, maxMarkers)
    decreases |steps|
  {
    if steps != [] {
      assert steps[0] in steps;
      SerialStep(w, steps[0], hash, maxMarkers);
      SerialRun(Next(w, steps[0], hash, maxMarkers), steps[1..], hash, maxMarkers, w');
    }
  }

  /**
    When no two placements overlap and names are short, names are unique, the index finds what a search
    of the list finds, and the list stays within the limit, throughout the run.
   */
  lemma SerialRunIsGood(steps: seq<Step>, hash: nat -> nat, maxMarkers: nat, w: World, name: string)
    requires Reaches(START, steps, hash, maxMarkers, w)
    requires Serial(START, steps, hash, maxMarkers) && forall s <- steps :: Short(s)
    ensures GoodThroughout(START, steps, hash, maxMarkers)
    ensures |w.m.buckets| == BUCKETS && FindEntry(w.m, hash, name) == First(w.m, w.m.list, name)
    ensures UniqueNames(w.m) && |w.m.list| <= maxMarkers
  {
    StartIsSound(hash);
    SerialRun(START, steps, hash, maxMarkers, w);
    GoodThroughoutIff(START, steps, hash, maxMarkers, w);
    FindAgreesWithList(w.m, hash, name);
  }

  /** A placement that nothing overlaps does what _create_boot_marker does as a whole. */
  lemma LonePlacementIsCreate(w: World, p: Pid, hash: nat -> nat, name: string, timer: nat, maxMarkers: nat,
      allocOk: bool)
    requires |w.m.buckets| == BUCKETS && p !in w.pending && Named(w)
    ensures var w1 := Next(w, Begin(p, name, timer), hash, maxMarkers);
      var w2 := Next(w1, Find(p), hash, maxMarkers);
      var w3 := Next(w2, Touch(p), hash, maxMarkers);
      |w3.m.buckets| == BUCKETS &&
      var w4 := Next(w3, Enter(p, allocOk), hash, maxMarkers);
      |w4.m.buckets| == BUCKETS && Next(w4, Count(p), hash, maxMarkers)
        == World(Create(w.m, hash, name, timer, maxMarkers, allocOk), w.pending)
  {
    var w1 := Next(w, Begin(p, name, timer), hash, maxMarkers);
    var w2 := Next(w1, Find(p), hash, maxMarkers);
    if !Full(w.m, maxMarkers) {
      assert w2.pending - {p} == w.pending;
      assert w2.pending[p := Linked] - {p} == w.pending;
    }
  }

  // ---------------------------------------------------------------------------------------
  // Placements that overlap
  // ---------------------------------------------------------------------------------------

  lemma {:induction false} ReachesJoin(w: World, first: seq<Step>, w1: World, second: seq<Step>, w2: World,
      hash: nat -> nat, maxMarkers: nat)
    requires Reaches(w, first, hash, maxMarkers, w1) && Reaches(w1, second, hash, maxMarkers, w2)
    ensures Reaches(w, first + second, hash, maxMarkers, w2)
    decreases |first|
  {
    if first == [] {
      assert first + second == second;
    } else {
      ReachesJoin(Next(w, first[0], hash, maxMarkers), first[1..], w1, second, w2, hash, maxMarkers);
      assert (first + second)[1..] == first[1..] + second;
    }
  }

  /** The steps of two placements that both look up before either links. */
  function Overlapping(a: string, b: string): seq<Step> {
    [Begin(0, a, 1), Begin(1, b, 2)] + [Find(0), Find(1)] + [Enter(0, true), Enter(1, true)]
  }

  lemma TwoSteps(w: World, s: Step, s': Step, hash: nat -> nat, maxMarkers: nat) returns (w': World)
    requires |w.m.buckets| == BUCKETS && |Next(w, s, hash, maxMarkers).m.buckets| == BUCKETS
    requires Survives(w, s) && Survives(Next(w, s, hash, maxMarkers), s')
    ensures w' == Next(Next(w, s, hash, maxMarkers), s', hash, maxMarkers)
    ensures Reaches(w, [s, s'], hash, maxMarkers, w')
  {
    w' := Next(Next(w, s, hash, maxMarkers), s', hash, maxMarkers);
    assert [s, s'][1..] == [s'] && [s'][1..] == [];
    assert Reaches(Next(w, s, hash, maxMarkers), [s'], hash, maxMarkers, w');
  }

  /** From any state below the limit, both of two overlapping placements of new names link a marker. */
  lemma BothLink(w: World, hash: nat -> nat, maxMarkers: nat, a: string, b: string) returns (w': World)
    requires Sound(w, hash) && w.pending == map[] && |w.m.list| < maxMarkers && a != "" && b != ""
    requires FindEntry(w.m, hash, a).None? && FindEntry(w.m, hash, b).None?
    ensures Reaches(w, Overlapping(a, b), hash, maxMarkers, w')
    ensures w'.m == Link(Link(w.m, hash, Marker(Stored(a), 1)), hash, Marker(Stored(b), 2))
  {
    assert Uncounted(w.pending) == {};
    var w1 := TwoSteps(w, Begin(0, a, 1), Begin(1, b, 2), hash, maxMarkers);
    assert w1 == World(w.m, map[0 := Admitted(a, 1), 1 := Admitted(b, 2)]);
    var w2 := TwoSteps(w1, Find(0), Find(1), hash, maxMarkers);
    assert w2 == World(w.m, map[0 := Missed(a, 1), 1 := Missed(b, 2)]);
    w' := TwoSteps(w2, Enter(0, true), Enter(1, true), hash, maxMarkers);
    ReachesJoin(w, [Begin(0, a, 1), Begin(1, b, 2)], w1, [Find(0), Find(1)], w2, hash, maxMarkers);
    ReachesJoin(w, [Begin(0, a, 1), Begin(1, b, 2)] + [Find(0), Find(1)], w2, [Enter(0, true), Enter(1, true)], w',
                hash, maxMarkers);
  }

  /** Two overlapping placements of one new name make two markers of it. */
  lemma OverlapDuplicates(hash: nat -> nat, maxMarkers: nat) returns (w: World)
    requires maxMarkers > 0
    ensures Reaches(START, Overlapping("x", "x"), hash, maxMarkers, w)
    ensures |w.m.list| == 2 && !UniqueNames(w.m)
  {
    StartIsSound(hash);
    NotAmong(EMPTY, hash, "x");
    w := BothLink(START, hash, maxMarkers, "x", "x");
    assert w.m.list == [0, 1] && w.m.NameOf(0) == w.m.NameOf(1) == "x" && 0 in w.m.list && 1 in w.m.list;
  }

  /** One marker below the limit, two overlapping placements of new names exceed it. */
  lemma OverlapExceedsLimit(w: World, hash: nat -> nat, maxMarkers: nat, a: string, b: string) returns (w': World)
    requires Sound(w, hash) && w.pending == map[] && |w.m.list| == maxMarkers - 1 && a != "" && b != ""
    requires FindEntry(w.m, hash, a).None? && FindEntry(w.m, hash, b).None?
    ensures Reaches(w, Overlapping(a, b), hash, maxMarkers, w') && |w'.m.list| == maxMarkers + 1
  {
    w' := BothLink(w, hash, maxMarkers, a, b);
  }

  /** A marker that a placement has found can be taken off the list before its time is stored. */
  lemma OverlapTouchesReleased(hash: nat -> nat, maxMarkers: nat, w: World, p: Pid, id: Id, name: string)
    requires Sound(w, hash) && p in w.pending && w.pending[p].Hit? && w.pending[p].id == id
    requires id in w.m.list && w.m.NameOf(id) == name
    ensures var w' := Next(w, Destroy(name), hash, maxMarkers);
      w'.pending[p] == w.pending[p] && id !in w'.m.list
  {
    DropMatchingKeeps(w.m, hash, w.m.list, name);
    assert OccursAt(name, name, 0);
    assert Contains(name, name);
  }
}

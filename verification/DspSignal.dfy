/**
  One DSP signal: hfastrpc_dspsignal_create, _wait, _cancel_wait and _destroy, and the arrival of a
  remote signal in handle_remote_signal.  Each region under dspsignals_lock is one step; a wait is
  an entry, a wake-up on the completion and an exit, between which anything may run.
  A slot whose group has not been allocated is a slot that has not been created.
 */
module DspSignals {

  const UINT_MAX: nat := 0xffff_ffff

  type Tid = nat

  datatype State = Unused | Pending | Signaled | Canceled
  datatype Phase = Waiting | Woken
  datatype Result = Ok | Interrupted | NoEntry | Busy | Blocked | Skipped

  /** The state and the completion counter, the threads inside a wait, and whether it was ever created. */
  datatype Slot = Slot(state: State, done: nat, waiters: map<Tid, Phase>, created: bool)

  const INITIAL: Slot := Slot(Unused, 0, map[], false)

  datatype Step =
    | RemoteSignal
    | WaitEnter(t: Tid)
    | WaitWake(t: Tid)    // wait_for_completion returns
    | WaitGiveUp(t: Tid)  // timeout or interruption
    | WaitExit(t: Tid)    // the second locked region of the wait
    | Create
    | Cancel
    | Destroy

  /** complete() and complete_all() of the kernel: the counter stops at its maximum. */
  function Complete(done: nat): nat {
    if done == UINT_MAX then done else done + 1
  }

  function Next(s: Slot, step: Step): (Result, Slot) {
    match step
    case RemoteSignal =>
      if s.state.Pending? || s.state.Signaled? then
        (Ok, s.(state := Signaled, done := Complete(s.done)))
      else (Skipped, s)
    case WaitEnter(t) =>
      if t in s.waiters then (Skipped, s)
      else if s.state.Unused? then (NoEntry, s)
      else if s.state.Canceled? then (Interrupted, s)
      else if s.state.Signaled? then (Ok, s)
      else (Blocked, s.(waiters := s.waiters[t := Waiting]))
    case WaitWake(t) =>
      if t !in s.waiters || s.waiters[t].Woken? || s.done == 0 then (Skipped, s)
      else if s.done == UINT_MAX then (Blocked, s.(waiters := s.waiters[t := Woken]))
      else (Blocked, s.(waiters := s.waiters[t := Woken], done := s.done - 1))
    case WaitGiveUp(t) =>
      if t !in s.waiters || s.waiters[t].Woken? then (Skipped, s)
      else (Interrupted, s.(waiters := s.waiters - {t}))
    case WaitExit(t) =>
      if t !in s.waiters || s.waiters[t].Waiting? then (Skipped, s)
      else
        var s1 := s.(waiters := s.waiters - {t});
        if s.state.Signaled? then (Ok, s1.(state := Pending))
        else if s.state.Canceled? || s.state.Unused? then (Interrupted, s1)
        else (Ok, s1)
    case Create =>
      if !s.state.Unused? then (Busy, s)
      else (Ok, s.(state := Pending, done := 0, created := true))
    case Cancel =>
      if s.state.Unused? then (NoEntry, s)
      else if s.state.Canceled? then (Ok, s)
      else (Ok, s.(state := Canceled, done := UINT_MAX))
    case Destroy =>
      if s.state.Unused? then (NoEntry, s)
      else (Ok, s.(state := Unused, done := UINT_MAX))
  }

  ghost predicate Reaches(s: Slot, steps: seq<Step>, s': Slot)
    decreases |steps|
  {
    if steps == [] then s' == s else Reaches(Next(s, steps[0]).1, steps[1..], s')
  }

  // ---------------------------------------------------------------------------------------
  // Wake-ups
  // ---------------------------------------------------------------------------------------

  ghost predicate IsWoken(s: Slot, t: Tid) {
    t in s.waiters && s.waiters[t].Woken?
  }

  /** The slot is over: cancelled, or destroyed and not created again. */
  predicate Over(s: Slot) {
    s.state.Canceled? || (s.state.Unused? && s.created)
  }

  ghost predicate Inv(s: Slot) {
    && s.done <= UINT_MAX
    && (s.state.Signaled? ==> s.done > 0 || exists t :: IsWoken(s, t))
    && (Over(s) ==> s.done == UINT_MAX)
    && (!s.created ==> s.state.Unused? && s.waiters == map[])
  }

  lemma NextKeeps(s: Slot, step: Step)
    requires Inv(s)
    ensures Inv(Next(s, step).1)
  {
    var s' := Next(s, step).1;
    if s.state.Signaled? && s'.state.Signaled? && s'.done == 0 {
      if s.done > 0 {
        assert step.WaitWake? && IsWoken(s', step.t);
      } else {
        var t :| IsWoken(s, t);
        assert IsWoken(s', t);
      }
    }
  }

  lemma {:induction false} RunKeeps(s: Slot, steps: seq<Step>, s': Slot)
    requires Inv(s) && Reaches(s, steps, s')
    ensures Inv(s')
    decreases |steps|
  {
    if steps != [] {
      NextKeeps(s, steps[0]);
      RunKeeps(Next(s, steps[0]).1, steps[1..], s');
    }
  }

  // ---------------------------------------------------------------------------------------
  // What signals and ends do
  // ---------------------------------------------------------------------------------------

  ghost predicate IsWaiting(s: Slot, t: Tid) {
    t in s.waiters && s.waiters[t].Waiting?
  }

  /** Thread t can leave wait_for_completion. */
  ghost predicate WakesUp(s: Slot, t: Tid) {
    IsWoken(Next(s, WaitWake(t)).1, t)
  }

  predicate Open(s: Slot) {
    s.state.Pending? || s.state.Signaled?
  }

  /** A signal to an open slot marks it signaled and lets every waiting thread wake up; to another it does nothing. */
  lemma SignalReachesWaiters(s: Slot)
    requires Inv(s)
    ensures var s1 := Next(s, RemoteSignal).1;
      && (Open(s) ==> s1.state.Signaled? && s1.waiters == s.waiters && forall t :: IsWaiting(s, t) ==> WakesUp(s1, t))
      && (!Open(s) ==> s1 == s)
  {
  }

  /** The end of a slot in use lets every waiting thread wake up, and it is in use no more. */
  lemma EndReachesWaiters(s: Slot, end: Step)
    requires Inv(s) && (end == Cancel || end == Step.Destroy)
    ensures var (r, s1) := Next(s, end);
      && (r == NoEntry <==> s.state.Unused?) && (s.state.Unused? ==> s1 == s)
      && (!s.state.Unused? ==>
            && r == Ok && Over(s1) && s1.waiters == s.waiters && (s1.state.Unused? <==> end == Step.Destroy)
            && forall t :: IsWaiting(s, t) ==> WakesUp(s1, t))
  {
  }

  /** Creation takes exactly an unused slot, and leaves it pending without a completion to take. */
  lemma CreateOpens(s: Slot)
    ensures var (r, s1) := Next(s, Step.Create);
      && (r == Ok <==> s.state.Unused?) && (r != Ok ==> r == Busy && s1 == s)
      && (r == Ok ==> s1.state.Pending? && s1.waiters == s.waiters && s1.created
                      && forall t :: IsWaiting(s, t) ==> !WakesUp(s1, t))
  {
  }

  /** A wait that is entered on a pending slot and then signaled succeeds, and leaves the slot as it found it. */
  lemma WaitTakesOneSignal(s: Slot, t: Tid)
    requires Inv(s) && s.state.Pending? && s.done < UINT_MAX - 1 && t !in s.waiters
    ensures var s1 := Next(s, WaitEnter(t)).1;
      var s2 := Next(s1, RemoteSignal).1;
      var s3 := Next(s2, WaitWake(t)).1;
      IsWaiting(s1, t) && IsWoken(s3, t) && Next(s3, WaitExit(t)) == (Ok, s)
  {
    assert s.waiters[t := Waiting][t := Woken] - {t} == s.waiters;
  }

  /** A wait that times out or is interrupted leaves the slot as it found it. */
  lemma GivingUpTakesNothing(s: Slot, t: Tid)
    requires Inv(s) && s.state.Pending? && t !in s.waiters
    ensures Next(Next(s, WaitEnter(t)).1, WaitGiveUp(t)) == (Interrupted, s)
  {
    assert s.waiters[t := Waiting] - {t} == s.waiters;
  }

  /** A wait on a slot that is not open fails at once. */
  lemma EndedWaitFails(s: Slot, t: Tid)
    requires !Open(s) && t !in s.waiters
    ensures Next(s, WaitEnter(t)) == (if s.state.Canceled? then Interrupted else NoEntry, s)
  {
  }

  // ---------------------------------------------------------------------------------------
  // No signal is lost
  // ---------------------------------------------------------------------------------------

  /** What the requests and signals of a run have made of a slot; `sent` counts the signals since it was created. */
  datatype Life = New | InUse(sent: nat) | Cancelled | Gone

  function LifeAfter(life: Life, step: Step): Life {
    match step
    case Create => if life.New? || life.Gone? then InUse(0) else life
    case RemoteSignal => if life.InUse? then InUse(life.sent + 1) else life
    case Cancel => if life.InUse? then Cancelled else life
    case Destroy => if life.InUse? || life.Cancelled? then Gone else life
    case _ => life
  }

  function LifeFrom(life: Life, steps: seq<Step>): Life
    decreases |steps|
  {
    if steps == [] then life else LifeFrom(LifeAfter(life, steps[0]), steps[1..])
  }

  /** The threads that have woken up since the last creation, when `n` have before the step. */
  ghost function WokenBy(s: Slot, step: Step, n: nat): nat {
    if step.Create? && s.state.Unused? then 0
    else if step.WaitWake? && IsWaiting(s, step.t) && IsWoken(Next(s, step).1, step.t) then n + 1 else n
  }

  /** The threads that have woken up in a run, since the last creation; `n` have before. */
  ghost function WokenFrom(s: Slot, steps: seq<Step>, n: nat): nat
    decreases |steps|
  {
    if steps == [] then n
    else
      WokenFrom(Next(s, steps[0]).1, steps[1..], WokenBy(s, steps[0], n))
  }

  /** The slot is what its life says. */
  ghost predicate Lives(s: Slot, life: Life) {
    match life
    case New => s.state.Unused? && !s.created
    case InUse(_) => Open(s) && s.created
    case Cancelled => s.state.Canceled? && s.created && s.done == UINT_MAX
    case Gone => s.state.Unused? && s.created && s.done == UINT_MAX
  }

  /** Every completion is there to take or has woken one thread. */
  ghost predicate Balanced(s: Slot, life: Life, woken: nat) {
    Lives(s, life) && (life.InUse? ==> s.done + woken == life.sent)
  }

  lemma {:induction false} RunBalances(s: Slot, life: Life, n: nat, steps: seq<Step>, s': Slot)
    requires Balanced(s, life, n) && Reaches(s, steps, s') && |steps| < UINT_MAX
    requires life.InUse? ==> life.sent + |steps| < UINT_MAX
    ensures Balanced(s', LifeFrom(life, steps), WokenFrom(s, steps, n))
    decreases |steps|
  {
    if steps != [] {
      var s1 := Next(s, steps[0]).1;
      var n1 := WokenBy(s, steps[0], n);
      RunBalances(s1, LifeAfter(life, steps[0]), n1, steps[1..], s');
    }
  }

  /**
    In every interleaving: the slot is unused, open or cancelled as the requests say; while it is open the
    signals since its creation are the completions there to take and the threads that have woken up, so
    that a waiting thread that cannot wake up means that all of them have woken one; a signaled slot has
    a completion to take or a thread already woken; and an ended slot lets every waiting thread wake up.
   */
  lemma NoLostWakeup(steps: seq<Step>, s: Slot)
    requires Reaches(INITIAL, steps, s) && |steps| < UINT_MAX
    ensures var life := LifeFrom(New, steps);
      && (s.state.Unused? <==> life.New? || life.Gone?) && (s.state.Canceled? <==> life.Cancelled?)
      && (Open(s) <==> life.InUse?)
      && (Open(s) ==> s.done + WokenFrom(INITIAL, steps, 0) == life.sent)
      && (Open(s) ==> forall t :: IsWaiting(s, t) && !WakesUp(s, t) ==> WokenFrom(INITIAL, steps, 0) == life.sent)
      && (!Open(s) ==> forall t :: IsWaiting(s, t) ==> WakesUp(s, t))
    ensures s.state.Signaled? ==> s.done > 0 || exists t :: IsWoken(s, t)
    ensures s.state.Canceled? || (s.state.Unused? && s.waiters != map[]) ==> s.done == UINT_MAX
  {
    RunKeeps(INITIAL, steps, s);
    RunBalances(INITIAL, New, 0, steps, s);
  }

  /**
    In every interleaving: a signal to a slot that is in use marks it signaled and lets every waiting
    thread wake up, and so does its cancelling or destruction, which ends it.
   */
  lemma WaiterIsReached(steps: seq<Step>, s: Slot, t: Tid, end: Step)
    requires Reaches(INITIAL, steps, s) && |steps| < UINT_MAX && IsWaiting(s, t)
    requires end == Cancel || end == Step.Destroy
    ensures LifeFrom(New, steps).InUse? ==>
      var s1 := Next(s, RemoteSignal).1; s1.state.Signaled? && WakesUp(s1, t)
    ensures LifeAfter(LifeFrom(New, steps), end) != LifeFrom(New, steps) ==>
      var s1 := Next(s, end).1; Over(s1) && WakesUp(s1, t)
  {
    RunKeeps(INITIAL, steps, s);
    RunBalances(INITIAL, New, 0, steps, s);
    SignalReachesWaiters(s);
    EndReachesWaiters(s, end);
  }

  /** A signal that comes while somebody waits lets a waiter through: one can wake, or one has. */
  lemma SignalLetsWaiterThrough(s: Slot, t: Tid)
    requires Inv(s) && s.state.Signaled? && IsWaiting(s, t)
    ensures WakesUp(s, t) || exists u :: IsWoken(s, u)
  {
  }

  // ---------------------------------------------------------------------------------------
  // Limits of the protocol
  // ---------------------------------------------------------------------------------------

  predicate Ends(step: Step) {
    step.Cancel? || step.Destroy?
  }

  predicate IsStepOf(step: Step, t: Tid) {
    match step
    case WaitEnter(u) => u == t
    case WaitWake(u) => u == t
    case WaitGiveUp(u) => u == t
    case WaitExit(u) => u == t
    case _ => false
  }

  /** The wait of the woken thread t reports that the slot has ended. */
  ghost predicate IsTold(s: Slot, t: Tid) {
    Next(s, WaitExit(t)).0 == Interrupted
  }

  lemma {:induction false} ReachesJoin(s: Slot, first: seq<Step>, s1: Slot, second: seq<Step>, s2: Slot)
    requires Reaches(s, first, s1) && Reaches(s1, second, s2)
    ensures Reaches(s, first + second, s2)
    decreases |first|
  {
    if first == [] {
      assert first + second == second;
    } else {
      ReachesJoin(Next(s, first[0]).1, first[1..], s1, second, s2);
      assert (first + second)[1..] == first[1..] + second;
    }
  }

  lemma {:induction false} StaysWoken(s: Slot, t: Tid, steps: seq<Step>, s': Slot)
    requires IsWoken(s, t) && s.created && Reaches(s, steps, s') && forall step <- steps :: !IsStepOf(step, t)
    ensures IsWoken(s', t) && s'.created
    decreases |steps|
  {
    if steps != [] {
      assert steps[0] in steps;
      StaysWoken(Next(s, steps[0]).1, t, steps[1..], s');
    }
  }

  lemma {:induction false} StaysWaiting(s: Slot, t: Tid, steps: seq<Step>, s': Slot)
    requires IsWaiting(s, t) && Reaches(s, steps, s') && forall step <- steps :: !IsStepOf(step, t)
    ensures IsWaiting(s', t)
    decreases |steps|
  {
    if steps != [] {
      assert steps[0] in steps;
      StaysWaiting(Next(s, steps[0]).1, t, steps[1..], s');
    }
  }

  /** An open slot stays open until it is cancelled or destroyed. */
  lemma {:induction false} OpenStays(s: Slot, steps: seq<Step>, s': Slot)
    requires s.state.Pending? || s.state.Signaled?
    requires Reaches(s, steps, s') && forall step <- steps :: !Ends(step)
    ensures s'.state.Pending? || s'.state.Signaled?
    decreases |steps|
  {
    if steps != [] {
      assert steps[0] in steps;
      OpenStays(Next(s, steps[0]).1, steps[1..], s');
    }
  }

  /** An ended slot stays so until it is created again. */
  lemma {:induction false} OverStays(s: Slot, steps: seq<Step>, s': Slot)
    requires Over(s) && s.created && Reaches(s, steps, s') && Step.Create !in steps
    ensures Over(s')
    decreases |steps|
  {
    if steps != [] {
      assert steps == [steps[0]] + steps[1..];
      OverStays(Next(s, steps[0]).1, steps[1..], s');
    }
  }

  /** Without a further cancel or destroy, an ended slot opens again exactly when a destroyed one is created. */
  lemma {:induction false} OverStaysIff(s: Slot, steps: seq<Step>, s': Slot)
    requires Over(s) && Reaches(s, steps, s') && forall step <- steps :: !Ends(step)
    ensures Over(s') <==> s.state.Canceled? || Step.Create !in steps
    decreases |steps|
  {
    if steps != [] {
      assert steps[0] in steps;
      assert steps == [steps[0]] + steps[1..];
      var s1 := Next(s, steps[0]).1;
      if s.state.Unused? && steps[0] == Step.Create {
        OpenStays(s1, steps[1..], s');
      } else {
        OverStaysIff(s1, steps[1..], s');
      }
    }
  }

  lemma {:induction false} EmptyStays(s: Slot, steps: seq<Step>, s': Slot)
    requires s.state.Pending? && s.done == 0 && Reaches(s, steps, s')
    requires forall step <- steps :: !Ends(step) && step != RemoteSignal
    ensures s'.done == 0
    decreases |steps|
  {
    if steps != [] {
      assert steps[0] in steps;
      EmptyStays(Next(s, steps[0]).1, steps[1..], s');
    }
  }

  lemma {:induction false} SaturatedIff(s: Slot, steps: seq<Step>, s': Slot)
    requires Over(s) && s.done == UINT_MAX && Reaches(s, steps, s')
    requires forall step <- steps :: !Ends(step) && step != RemoteSignal
    ensures s'.done > 0 <==> s.state.Canceled? || Step.Create !in steps
    decreases |steps|
  {
    if steps != [] {
      assert steps[0] in steps;
      assert steps == [steps[0]] + steps[1..];
      var s1 := Next(s, steps[0]).1;
      if s.state.Unused? && steps[0] == Step.Create {
        EmptyStays(s1, steps[1..], s');
      } else {
        SaturatedIff(s1, steps[1..], s');
      }
    }
  }

  /**
    A thread that waits when its slot ends, in every run in which it does not get to run: it can wake
    up as long as the slot is ended, so in any case if nobody creates the slot again; and unless a
    signal comes or the slot ends once more, it cannot exactly when the slot was destroyed and has been
    created again.
   */
  lemma EndedWaiterWakesIff(s: Slot, t: Tid, before: seq<Step>, s1: Slot)
    requires Inv(s) && Over(s) && IsWaiting(s, t)
    requires Reaches(s, before, s1) && forall step <- before :: !IsStepOf(step, t)
    ensures IsWaiting(s1, t) && (Over(s1) ==> WakesUp(s1, t))
    ensures Step.Create !in before ==> WakesUp(s1, t)
    ensures (forall step <- before :: !Ends(step) && step != RemoteSignal) ==>
      (WakesUp(s1, t) <==> s.state.Canceled? || Step.Create !in before)
  {
    StaysWaiting(s, t, before, s1);
    RunKeeps(s, before, s1);
    if Step.Create !in before {
      OverStays(s, before, s1);
    }
    if forall step <- before :: !Ends(step) && step != RemoteSignal {
      SaturatedIff(s, before, s1);
    }
  }

  /** A woken thread is told of the end of its slot exactly when the slot is ended as it leaves the wait. */
  lemma WokenIsToldIff(s: Slot, t: Tid, after: seq<Step>, s2: Slot)
    requires IsWoken(s, t) && s.created && Reaches(s, after, s2) && forall step <- after :: !IsStepOf(step, t)
    ensures IsWoken(s2, t) && (IsTold(s2, t) <==> Over(s2))
  {
    StaysWoken(s, t, after, s2);
  }

  /**
    A thread that waits when its slot ends, in every run up to the second locked region of its wait:
    it wakes up after `before` and leaves after `after`, and anything else may run in either.  Its wait
    reports the end if and only if the slot is ended when it leaves: always if nobody creates the slot
    again, and unless the slot ends once more exactly if it was cancelled or is not created again.
   */
  lemma EndedWaiterIsToldIff(s: Slot, t: Tid, before: seq<Step>, s1: Slot, after: seq<Step>, s2: Slot)
    requires Inv(s) && Over(s) && IsWaiting(s, t)
    requires Reaches(s, before, s1) && WakesUp(s1, t) && Reaches(Next(s1, WaitWake(t)).1, after, s2)
    requires forall step <- before + after :: !IsStepOf(step, t)
    ensures IsWoken(s2, t) && (IsTold(s2, t) <==> Over(s2))
    ensures Step.Create !in before + after ==> IsTold(s2, t)
    ensures (forall step <- before + after :: !Ends(step)) ==>
      (IsTold(s2, t) <==> s.state.Canceled? || Step.Create !in before + after)
  {
    assert forall step <- before :: step in before + after;
    assert forall step <- after :: step in before + after;
    var wake := [WaitWake(t)];
    CreatedStays(s, before, s1);
    WokenIsToldIff(Next(s1, WaitWake(t)).1, t, after, s2);
    assert wake[1..] == [] && Reaches(s1, wake, Next(s1, WaitWake(t)).1);
    ReachesJoin(s1, wake, Next(s1, WaitWake(t)).1, after, s2);
    ReachesJoin(s, before, s1, wake + after, s2);
    var steps := before + (wake + after);
    assert forall step :: step in steps <==> step in before + after || step == WaitWake(t);
    if Step.Create !in before + after {
      OverStays(s, steps, s2);
    }
    if forall step <- before + after :: !Ends(step) {
      OverStaysIff(s, steps, s2);
    }
  }

  lemma {:induction false} CreatedStays(s: Slot, steps: seq<Step>, s': Slot)
    requires s.created && Reaches(s, steps, s')
    ensures s'.created
    decreases |steps|
  {
    if steps != [] {
      CreatedStays(Next(s, steps[0]).1, steps[1..], s');
    }
  }

  /**
    A create between the wake-up of a destroyed slot's waiter and the second region of its wait: the
    wait succeeds although no signal has come.
   */
  lemma RecreateCanHideEnd(t: Tid) returns (steps: seq<Step>, s: Slot)
    ensures steps == [Step.Create, WaitEnter(t), Step.Destroy, WaitWake(t), Step.Create] && Reaches(INITIAL, steps, s)
    ensures IsWoken(s, t) && Next(s, WaitExit(t)).0 == Ok && RemoteSignal !in steps
  {
    var first, second := [Step.Create, WaitEnter(t), Step.Destroy], [WaitWake(t), Step.Create];
    steps := [Step.Create, WaitEnter(t), Step.Destroy, WaitWake(t), Step.Create];
    var s1 := Next(INITIAL, Step.Create).1;
    var s2 := Next(s1, WaitEnter(t)).1;
    var s3 := Next(s2, Step.Destroy).1;
    var s4 := Next(s3, WaitWake(t)).1;
    s := Next(s4, Step.Create).1;
    assert first[1..] == [WaitEnter(t), Step.Destroy] && first[1..][1..] == [Step.Destroy];
    assert first[1..][1..][1..] == [] && second[1..] == [Step.Create] && second[1..][1..] == [];
    assert Reaches(s2, [Step.Destroy], s3) && Reaches(s1, [WaitEnter(t), Step.Destroy], s3);
    assert Reaches(INITIAL, first, s3) && Reaches(s4, [Step.Create], s) && Reaches(s3, second, s);
    ReachesJoin(INITIAL, first, s3, second, s);
    assert first + second == steps;
  }

  /** Create right after destroy can put a thread that has not run yet back to sleep. */
  lemma RecreateCanStrandWaiter(t: Tid) returns (steps: seq<Step>, s: Slot)
    ensures Reaches(INITIAL, steps, s) && Destroy in steps
    ensures t in s.waiters && s.waiters[t].Waiting? && s.state.Pending? && s.done == 0
  {
    steps := [Create, WaitEnter(t), Destroy, Create];
    var s1 := Next(INITIAL, Create).1;
    var s2 := Next(s1, WaitEnter(t)).1;
    var s3 := Next(s2, Destroy).1;
    s := Next(s3, Create).1;
    assert steps[1..] == [WaitEnter(t), Destroy, Create] && steps[1..][1..] == [Destroy, Create];
    assert steps[1..][1..][1..] == [Create] && steps[1..][1..][1..][1..] == [];
    assert Reaches(s3, [Create], s) && Reaches(s2, [Destroy, Create], s);
    assert Reaches(s1, [WaitEnter(t), Destroy, Create], s);
    assert steps[2] == Destroy;
  }

  /**
    A signal that came while nobody waited stays: until the slot is cancelled or destroyed no thread
    enters the sleeping part of a wait, so every wait succeeds at once and takes nothing.
   */
  lemma {:induction false} UnawaitedSignalStays(s: Slot, steps: seq<Step>, s': Slot)
    requires s.state.Signaled? && s.waiters == map[] && Reaches(s, steps, s')
    requires forall i :: 0 <= i < |steps| ==> !Ends(steps[i])
    ensures s'.state.Signaled? && s'.waiters == map[]
    ensures forall t :: Next(s', WaitEnter(t)) == (Ok, s')
    decreases |steps|
  {
    if steps != [] {
      assert !Ends(steps[0]);
      UnawaitedSignalStays(Next(s, steps[0]).1, steps[1..], s');
    }
  }

  // ---------------------------------------------------------------------------------------
  // The signal in memory
  // ---------------------------------------------------------------------------------------

  /** struct fastrpc_dspsignal with its completion; each method is one region under dspsignals_lock. */
  class Signal {
    var state: State
    var done: nat
    ghost var waiters: map<Tid, Phase>
    ghost var created: bool

    constructor ()
      ensures View() == INITIAL
    {
      state, done := Unused, 0;
      waiters, created := map[], false;
    }

    ghost function View(): Slot
      reads this
    {
      Slot(state, done, waiters, created)
    }

    /** The part of handle_remote_signal under the lock. */
    method Arrive()
      modifies this
      ensures View() == Next(old(View()), RemoteSignal).1
    {
      if state.Pending? || state.Signaled? {
        done := Complete(done);
        state := Signaled;
      }
    }

    /** The first region of a wait; Blocked sends the thread to wait_for_completion. */
    method EnterWait(t: Tid) returns (r: Result)
      requires t !in waiters
      modifies this
      ensures (r, View()) == Next(old(View()), WaitEnter(t))
    {
      if state.Unused? {
        return NoEntry;
      }
      if !state.Pending? {
        r := if state.Canceled? || state.Unused? then Interrupted else Ok;
        return;
      }
      waiters := waiters[t := Waiting];
      r := Blocked;
    }

    /** The second region of a wait. */
    method LeaveWait(t: Tid) returns (r: Result)
      requires t in waiters && waiters[t].Woken?
      modifies this
      ensures (r, View()) == Next(old(View()), WaitExit(t))
    {
      r := Ok;
      if state.Signaled? {
        state := Pending;
      } else if state.Canceled? || state.Unused? {
        r := Interrupted;
      }
      waiters := waiters - {t};
    }

    method Create() returns (r: Result)
      modifies this
      ensures (r, View()) == Next(old(View()), Step.Create)
    {
      if !state.Unused? {
        return Busy;
      }
      state, done := Pending, 0;
      created := true;
      r := Ok;
    }

    method CancelWait() returns (r: Result)
      modifies this
      ensures (r, View()) == Next(old(View()), Cancel)
    {
      if state.Unused? {
        return NoEntry;
      }
      if !state.Canceled? {
        state, done := Canceled, UINT_MAX;
      }
      r := Ok;
    }

    method Destroy() returns (r: Result)
      modifies this
      ensures (r, View()) == Next(old(View()), Step.Destroy)
    {
      if state.Unused? {
        return NoEntry;
      }
      state, done := Unused, UINT_MAX;
      r := Ok;
    }
  }
}

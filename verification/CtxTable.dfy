/**
  The context table of one channel: slot allocation in context_alloc, release in context_free and
  the matching of DSP responses in fastrpc_handle_rpc_response.  The three run under ctxlock, so
  every interleaving is a sequence of the steps below.
 */
module ContextTables {
  import opened Common
  import opened Pages

  const RESERVED: nat := 70  // NUM_KERNEL_AND_STATIC_ONLY_CONTEXTS
  const MAX_JOBS: nat := 0x1_0000_0000_0000  // job ids that fit above bit 16
  const RSP_VERSION2: nat := 2

  /** enum fastrpc_response_flags */
  datatype RspFlags = Normal | UserEarly | Early | Complete | Other

  /** FASTRPC_CTX_MAX: a power of two above the reserved entries. */
  predicate ValidMax(max: nat) {
    max == 128 || max == 256 || max == 512 || max == 1024
  }

  // ---------------------------------------------------------------------------------------
  // Context ids
  // ---------------------------------------------------------------------------------------

  /** The job id from bit 16, the table index from bit 6, the job type at bit 4. */
  function CtxId(job: nat, idx: nat, async: bool): u64 {
    (job * 65536 + idx * 64 + if async then 16 else 0) % WORD
  }

  /** GET_TABLE_IDX_FROM_CTXID */
  function TableIdx(ctxid: u64, max: nat): nat
    requires max > 0
  {
    ctxid / 64 % max
  }

  /** GET_CTXID_FROM_RSP_CTX: clear the two bits that carry the PD. */
  function WithoutPd(rspCtx: u64): u64 {
    rspCtx - rspCtx % 4
  }

  /** The shifts of the driver build the id that the arithmetic above builds. */
  lemma ShiftsBuildId(job: bv64, idx: bv64, async: bv64)
    requires idx < 1024 && async <= 1
    ensures (job << 16) | (idx << 6) | (async << 4) == job * 65536 + idx * 64 + async * 16
  {
  }

  /** The masks of the driver take an id apart as the arithmetic above does, for each table size. */
  lemma MasksDecodeId(rspCtx: bv64)
    ensures (rspCtx & (127 << 6)) >> 6 == rspCtx / 64 % 128
    ensures (rspCtx & (255 << 6)) >> 6 == rspCtx / 64 % 256
    ensures (rspCtx & (511 << 6)) >> 6 == rspCtx / 64 % 512
    ensures (rspCtx & (1023 << 6)) >> 6 == rspCtx / 64 % 1024
    ensures rspCtx & !3 == rspCtx - rspCtx % 4
  {
  }

  /** The PD or-ed into an id sits in two clear bits. */
  lemma PdBitsAgree(job: bv64, idx: bv64, async: bv64, pd: bv64)
    requires async <= 1 && pd < 4
    ensures var id := (job << 16) | (idx << 6) | (async << 4);
      id | pd == id + pd && (id | pd) & !3 == id
  {
  }

  /** Job ids below 2^48 do not wrap. */
  lemma CtxIdFits(job: nat, idx: nat, async: bool)
    requires job < MAX_JOBS && idx < 1024
    ensures CtxId(job, idx, async) == job * 65536 + idx * 64 + (if async then 16 else 0) < WORD - 4
  {
  }

  lemma CtxIdDecodes(job: nat, idx: nat, async: bool, pd: nat, max: nat)
    requires job < MAX_JOBS && ValidMax(max) && idx < max && pd < 4
    ensures CtxId(job, idx, async) + pd < WORD
    ensures TableIdx(CtxId(job, idx, async) + pd, max) == idx
    ensures WithoutPd(CtxId(job, idx, async) + pd) == CtxId(job, idx, async)
    ensures CtxId(job, idx, async) / 65536 == job
  {
    CtxIdFits(job, idx, async);
    var low := idx * 64 + if async then 16 else 0;
    DivUnique(job * 65536 + low, job, 65536);
    IndexDecodes(job, idx, low + pd, max);
    DivUnique(job * 65536 + low + pd, job * 16384 + idx * 16 + (if async then 4 else 0), 4);
  }

  lemma IndexDecodes(job: nat, idx: nat, low: nat, max: nat)
    requires ValidMax(max) && idx < max && idx * 64 <= low < idx * 64 + 64
    ensures (job * 65536 + low) / 64 % max == idx
  {
    DivUnique(job * 65536 + low, job * 1024 + idx, 64);
    if max == 128 {
      ModOfMultiple(job * 8, idx, 128);
    } else if max == 256 {
      ModOfMultiple(job * 4, idx, 256);
    } else if max == 512 {
      ModOfMultiple(job * 2, idx, 512);
    } else {
      ModOfMultiple(job, idx, 1024);
    }
  }

  lemma ModOfMultiple(a: nat, r: nat, m: nat)
    requires r < m
    ensures (a * m + r) % m == r
  {
    DivUnique(a * m + r, a, m);
  }

  // ---------------------------------------------------------------------------------------
  // The channel
  // ---------------------------------------------------------------------------------------

  /** A context is named by the job id it was allocated under. */
  type Job = nat

  /**
    The part of a context that responses and the table use.  `critical` says it is a kernel call or
    one to a static handle; `completions` counts complete() on its completion.
   */
  datatype Ctx = Ctx(ctxid: u64, critical: bool, async: bool, done: bool, retval: int, flags: RspFlags,
                     earlyTime: nat, queued: bool, completions: nat)

  datatype Channel = Channel(table: seq<Option<Job>>, ctxs: map<Job, Ctx>, jobid: nat)

  /** The fields of a response; the version-2 part is absent in a short message. */
  datatype RspV2 = RspV2(flags: RspFlags, earlyTime: nat, version: nat)
  datatype Response = Response(ctx: u64, retval: int, v2: Option<RspV2>)

  datatype Step =
    | Alloc(critical: bool, async: bool)
    | Free(job: Job)
    | Respond(rsp: Response)
    | PollDone(job: Job)  // the caller saw the poll word change

  function FirstSlotFor(critical: bool): nat {
    if critical then 0 else RESERVED
  }

  /** The locked region of context_alloc.  A call that finds no slot keeps ctxid 0. */
  function AllocCtx(ch: Channel, critical: bool, async: bool): (nat, Channel)
    requires RESERVED <= |ch.table|
  {
    var job := ch.jobid + 1;
    var i := FirstFree(ch.table, FirstSlotFor(critical));
    var blank := Ctx(0, critical, async, false, -1, Normal, 0, false, 0);
    if i < |ch.table| then
      (i, Channel(ch.table[i := Some(job)], ch.ctxs[job := blank.(ctxid := CtxId(job, i, async))], job))
    else (i, Channel(ch.table, ch.ctxs[job := blank], job))
  }

  function ClearSlots(table: seq<Option<Job>>, job: Job): (t: seq<Option<Job>>)
    ensures |t| == |table|
    ensures forall i :: 0 <= i < |table| ==> t[i] == if table[i] == Some(job) then None else table[i]
  {
    seq(|table|, i requires 0 <= i < |table| => if table[i] == Some(job) then None else table[i])
  }

  function FreeCtx(ch: Channel, job: Job): Channel {
    Channel(ClearSlots(ch.table, job), ch.ctxs - {job}, ch.jobid)
  }

  /** context_notify_user */
  function Notify(c: Ctx, retval: int, flags: RspFlags, earlyTime: nat): Ctx {
    var c1 := c.(retval := retval, flags := flags);
    match flags
    case Normal => c1.(done := true, queued := c.queued || c.async, completions := c.completions + 1)
    case Complete => c1.(done := true, queued := c.queued || c.async, completions := c.completions + 1)
    case UserEarly =>
      if c.async then c1.(earlyTime := earlyTime)
      else c1.(earlyTime := earlyTime, completions := c.completions + 1)
    case Early => if c.async then c1.(queued := true) else c1.(completions := c.completions + 1)
    case Other => c1
  }

  /** The context a response is for, if the checks of fastrpc_handle_rpc_response pass. */
  function Target(ch: Channel, rsp: Response): Option<Job>
    requires |ch.table| > 0
  {
    var idx := TableIdx(rsp.ctx, |ch.table|);
    if ch.table[idx].None? then None
    else
      var job := ch.table[idx].value;
      if job !in ch.ctxs || ch.ctxs[job].ctxid != WithoutPd(rsp.ctx) then None
      else if rsp.v2.Some? && rsp.v2.value.version != RSP_VERSION2 then None
      else Some(job)
  }

  function RespondTo(ch: Channel, rsp: Response): Channel
    requires |ch.table| > 0
  {
    match Target(ch, rsp)
    case None => ch
    case Some(job) =>
      if job !in ch.ctxs then ch
      else
        var flags := if rsp.v2.Some? then rsp.v2.value.flags else Normal;
        var early := if rsp.v2.Some? then rsp.v2.value.earlyTime else 0;
        ch.(ctxs := ch.ctxs[job := Notify(ch.ctxs[job], rsp.retval, flags, early)])
  }

  function Next(ch: Channel, s: Step): Channel
    requires RESERVED < |ch.table|
  {
    match s
    case Alloc(critical, async) => AllocCtx(ch, critical, async).1
    case Free(job) => if job in ch.ctxs then FreeCtx(ch, job) else ch
    case Respond(rsp) => RespondTo(ch, rsp)
    case PollDone(job) =>
      if job in ch.ctxs then ch.(ctxs := ch.ctxs[job := ch.ctxs[job].(done := true, retval := 0)]) else ch
  }

  // ---------------------------------------------------------------------------------------
  // The invariant
  // ---------------------------------------------------------------------------------------

  /** Slot i names a live context whose id decodes to i; a reserved slot names a critical one. */
  ghost predicate SlotOk(ch: Channel, i: nat)
    requires i < |ch.table|
  {
    ch.table[i].Some? ==>
      var job := ch.table[i].value;
      && job in ch.ctxs
      && ch.ctxs[job].ctxid == CtxId(job, i, ch.ctxs[job].async)
      && (i < RESERVED ==> ch.ctxs[job].critical)
  }

  /** A live context has the id of the slot it sits in, or id 0 and no slot. */
  ghost predicate CtxOk(ch: Channel, job: Job)
    requires job in ch.ctxs && |ch.table| > 0
  {
    && 1 <= job <= ch.jobid
    && (ch.ctxs[job].ctxid == 0 || ch.table[TableIdx(ch.ctxs[job].ctxid, |ch.table|)] == Some(job))
  }

  ghost predicate Inv(ch: Channel) {
    && ValidMax(|ch.table|) && ch.jobid < MAX_JOBS
    && (forall i :: 0 <= i < |ch.table| ==> SlotOk(ch, i))
    && (forall job :: job in ch.ctxs ==> CtxOk(ch, job))
  }

  lemma InitOk(max: nat)
    requires ValidMax(max)
    ensures Inv(Channel(seq(max, _ => None), map[], 0))
  {
  }

  lemma SlotDecodes(ch: Channel, i: nat)
    requires Inv(ch) && i < |ch.table| && ch.table[i].Some?
    ensures var job := ch.table[i].value;
      job in ch.ctxs && TableIdx(ch.ctxs[job].ctxid, |ch.table|) == i && ch.ctxs[job].ctxid / 65536 == job
      && ch.ctxs[job].ctxid != 0
  {
    var job := ch.table[i].value;
    assert SlotOk(ch, i) && CtxOk(ch, job);
    CtxIdDecodes(job, i, ch.ctxs[job].async, 0, |ch.table|);
  }

  /** Live contexts with a slot have distinct ids, and each sits in one slot only. */
  lemma IdsAreDistinct(ch: Channel, i: nat, j: nat)
    requires Inv(ch) && i < j < |ch.table| && ch.table[i].Some? && ch.table[j].Some?
    ensures var a, b := ch.table[i].value, ch.table[j].value;
      a != b && a in ch.ctxs && b in ch.ctxs && ch.ctxs[a].ctxid != ch.ctxs[b].ctxid
  {
    SlotDecodes(ch, i);
    SlotDecodes(ch, j);
  }

  lemma JobIsNew(ch: Channel)
    requires Inv(ch)
    ensures ch.jobid + 1 !in ch.ctxs
  {
    forall job | job in ch.ctxs ensures job <= ch.jobid {
      assert CtxOk(ch, job);
    }
  }

  lemma AllocKeeps(ch: Channel, critical: bool, async: bool)
    requires Inv(ch) && ch.jobid + 1 < MAX_JOBS
    ensures Inv(AllocCtx(ch, critical, async).1)
  {
    var (i, ch') := AllocCtx(ch, critical, async);
    var job := ch.jobid + 1;
    JobIsNew(ch);
    forall k | 0 <= k < |ch'.table| ensures SlotOk(ch', k) {
      assert SlotOk(ch, k);
    }
    if i < |ch.table| {
      CtxIdDecodes(job, i, async, 0, |ch.table|);
    } else {
      assert CtxOk(ch', job);
    }
    forall x | x in ch'.ctxs ensures CtxOk(ch', x) {
      assert x != job ==> CtxOk(ch, x);
    }
  }

  lemma FreeKeeps(ch: Channel, job: Job)
    requires Inv(ch)
    ensures Inv(FreeCtx(ch, job))
  {
    var ch' := FreeCtx(ch, job);
    forall k | 0 <= k < |ch'.table| ensures SlotOk(ch', k) {
      assert SlotOk(ch, k);
    }
    forall x | x in ch'.ctxs ensures CtxOk(ch', x) {
      assert CtxOk(ch, x);
    }
  }

  /** Changing a context without its id and kind keeps the invariant. */
  lemma UpdateKeeps(ch: Channel, job: Job, c: Ctx)
    requires Inv(ch) && job in ch.ctxs
    requires c.ctxid == ch.ctxs[job].ctxid && c.critical == ch.ctxs[job].critical && c.async == ch.ctxs[job].async
    ensures Inv(ch.(ctxs := ch.ctxs[job := c]))
  {
    var ch' := ch.(ctxs := ch.ctxs[job := c]);
    forall k | 0 <= k < |ch'.table| ensures SlotOk(ch', k) {
      assert SlotOk(ch, k);
    }
    forall x | x in ch'.ctxs ensures CtxOk(ch', x) {
      assert CtxOk(ch, x);
    }
  }

  lemma NextKeeps(ch: Channel, s: Step)
    requires Inv(ch) && (s.Alloc? ==> ch.jobid + 1 < MAX_JOBS)
    ensures Inv(Next(ch, s)) && |Next(ch, s).table| == |ch.table|
    ensures Next(ch, s).jobid == ch.jobid + if s.Alloc? then 1 else 0
  {
    match s
    case Alloc(critical, async) => AllocKeeps(ch, critical, async);
    case Free(job) => FreeKeeps(ch, job);
    case Respond(rsp) =>
      var t := Target(ch, rsp);
      if t.Some? {
        UpdateKeeps(ch, t.value, RespondTo(ch, rsp).ctxs[t.value]);
      }
    case PollDone(job) =>
      if job in ch.ctxs {
        UpdateKeeps(ch, job, Next(ch, s).ctxs[job]);
      }
  }

  // ---------------------------------------------------------------------------------------
  // Responses
  // ---------------------------------------------------------------------------------------

  /**
    A response reaches a context exactly when some live context has a slot, carries the id in the
    response, and the version is right; that context is then the only one.
   */
  lemma ResponseMatchesById(ch: Channel, rsp: Response, job: Job)
    requires Inv(ch)
    ensures Target(ch, rsp) == Some(job) <==>
      && job in ch.ctxs && ch.ctxs[job].ctxid != 0 && ch.ctxs[job].ctxid == WithoutPd(rsp.ctx)
      && (rsp.v2.Some? ==> rsp.v2.value.version == RSP_VERSION2)
  {
    var idx := TableIdx(rsp.ctx, |ch.table|);
    if Target(ch, rsp) == Some(job) {
      SlotDecodes(ch, idx);
    }
    if job in ch.ctxs && ch.ctxs[job].ctxid != 0 && ch.ctxs[job].ctxid == WithoutPd(rsp.ctx) {
      assert CtxOk(ch, job);
      var i := TableIdx(ch.ctxs[job].ctxid, |ch.table|);
      assert SlotOk(ch, i);
      CtxIdDecodes(job, i, ch.ctxs[job].async, rsp.ctx % 4, |ch.table|);
    }
  }

  /** The DSP's answer to what was sent, the id with the PD or-ed in, finds its context. */
  lemma AnswerFindsItsContext(ch: Channel, i: nat, pd: nat, rsp: Response)
    requires Inv(ch) && i < |ch.table| && ch.table[i].Some? && pd < 4
    requires ch.table[i].value in ch.ctxs && rsp.ctx == ch.ctxs[ch.table[i].value].ctxid + pd
    requires rsp.v2.Some? ==> rsp.v2.value.version == RSP_VERSION2
    ensures Target(ch, rsp) == ch.table[i]
  {
    var job := ch.table[i].value;
    SlotDecodes(ch, i);
    assert SlotOk(ch, i) && CtxOk(ch, job);
    CtxIdDecodes(job, i, ch.ctxs[job].async, pd, |ch.table|);
  }

  /** Only a response that carries its id, or its own polling, ever marks a context done. */
  lemma DoneOnlyByOwnResponse(ch: Channel, s: Step, job: Job)
    requires Inv(ch) && job in ch.ctxs && !ch.ctxs[job].done
    requires job in Next(ch, s).ctxs && Next(ch, s).ctxs[job].done
    requires s.Alloc? ==> ch.jobid + 1 < MAX_JOBS
    ensures s == PollDone(job) ||
      (&& s.Respond? && WithoutPd(s.rsp.ctx) == ch.ctxs[job].ctxid
       && (s.rsp.v2.Some? ==> s.rsp.v2.value.flags == Normal || s.rsp.v2.value.flags == Complete))
  {
    assert CtxOk(ch, job);
    if s.Respond? {
      ResponseMatchesById(ch, s.rsp, job);
    }
  }

  ghost predicate Reaches(ch: Channel, steps: seq<Step>, ch': Channel)
    decreases |steps|
  {
    if steps == [] then ch' == ch
    else RESERVED < |ch.table| && Reaches(Next(ch, steps[0]), steps[1..], ch')
  }

  lemma {:induction false} RunKeeps(ch: Channel, steps: seq<Step>, ch': Channel)
    requires Inv(ch) && Reaches(ch, steps, ch') && ch.jobid + |steps| < MAX_JOBS
    ensures Inv(ch') && ch.jobid <= ch'.jobid && |ch'.table| == |ch.table|
    ensures forall job :: job in ch'.ctxs && job <= ch.jobid ==> job in ch.ctxs
    decreases |steps|
  {
    if steps != [] {
      NextKeeps(ch, steps[0]);
      RunKeeps(Next(ch, steps[0]), steps[1..], ch');
    }
  }

  /**
    A response to a context that has been freed is dropped in every later state, whatever ran in
    between and whoever holds the slot now.
   */
  lemma StaleResponseIsDropped(ch: Channel, job: Job, steps: seq<Step>, ch': Channel, rsp: Response)
    requires Inv(ch) && job in ch.ctxs && ch.ctxs[job].ctxid != 0 && ch.ctxs[job].ctxid == WithoutPd(rsp.ctx)
    requires ch.jobid + |steps| < MAX_JOBS && Reaches(Next(ch, Free(job)), steps, ch')
    ensures |ch'.table| > 0 && RespondTo(ch', rsp) == ch'
  {
    var ch1 := Next(ch, Free(job));
    NextKeeps(ch, Free(job));
    assert CtxOk(ch, job);
    SlotDecodes(ch, TableIdx(ch.ctxs[job].ctxid, |ch.table|));
    RunKeeps(ch1, steps, ch');
    var k := TableIdx(rsp.ctx, |ch'.table|);
    if ch'.table[k].Some? {
      SlotDecodes(ch', k);
    }
  }

  // ---------------------------------------------------------------------------------------
  // What answers do to a context
  // ---------------------------------------------------------------------------------------

  /** The flags of a response; one without the version-2 part is a normal one. */
  function FlagsOf(rsp: Response): RspFlags {
    if rsp.v2.Some? then rsp.v2.value.flags else Normal
  }

  predicate IsFinal(rsp: Response) {
    FlagsOf(rsp) == Normal || FlagsOf(rsp) == Complete
  }

  /** The response wakes the caller of a synchronous call, and a final one wakes any caller. */
  predicate Wakes(rsp: Response, async: bool) {
    IsFinal(rsp) || (!async && (FlagsOf(rsp) == UserEarly || FlagsOf(rsp) == Early))
  }

  /** The response puts an asynchronous job on its client's queue. */
  predicate Queues(rsp: Response) {
    IsFinal(rsp) || FlagsOf(rsp) == Early
  }

  /** The response carries the id, with any PD, and the right version. */
  predicate Answers(rsp: Response, ctxid: u64) {
    WithoutPd(rsp.ctx) == ctxid && (rsp.v2.Some? ==> rsp.v2.value.version == RSP_VERSION2)
  }

  function AnswerOf(s: Step, ctxid: u64): (answers: seq<Response>)
    ensures |answers| <= 1
  {
    if s.Respond? && Answers(s.rsp, ctxid) then [s.rsp] else []
  }

  /** The responses in a run that answer the id, in order. */
  function AnswersTo(steps: seq<Step>, ctxid: u64): seq<Response> {
    if steps == [] then [] else AnswerOf(steps[0], ctxid) + AnswersTo(steps[1..], ctxid)
  }

  predicate AnyFinal(answers: seq<Response>) {
    exists r <- answers :: IsFinal(r)
  }

  predicate AnyQueues(answers: seq<Response>) {
    exists r <- answers :: Queues(r)
  }

  function WakeUps(answers: seq<Response>, async: bool): nat {
    if answers == [] then 0 else (if Wakes(answers[0], async) then 1 else 0) + WakeUps(answers[1..], async)
  }

  /** The wake-up hint after a response: that of a user's early signal, otherwise the one before. */
  function HintAfter(rsp: Response, hint: nat): nat {
    if FlagsOf(rsp) == UserEarly then rsp.v2.value.earlyTime else hint
  }

  function LastHint(answers: seq<Response>, hint: nat): nat {
    if answers == [] then hint else LastHint(answers[1..], HintAfter(answers[0], hint))
  }

  /** What the answers make of context c; `polled` says that the caller saw the poll word change. */
  ghost predicate Decided(c: Ctx, c': Ctx, answers: seq<Response>, polled: bool) {
    && c'.ctxid == c.ctxid && c'.critical == c.critical && c'.async == c.async
    && c'.completions == c.completions + WakeUps(answers, c.async)
    && c'.earlyTime == LastHint(answers, c.earlyTime)
    && (c'.done <==> c.done || polled || AnyFinal(answers))
    && (c'.queued <==> c.queued || (c.async && AnyQueues(answers)))
    && (!polled && answers == [] ==> c' == c)
    && (!polled && answers != [] ==>
          c'.retval == answers[|answers| - 1].retval && c'.flags == FlagsOf(answers[|answers| - 1]))
  }

  /** One step: an answer to the id has its effect on this context, and nothing else but polling has any. */
  lemma StepDecides(ch: Channel, s: Step, job: Job)
    requires Inv(ch) && job in ch.ctxs && ch.ctxs[job].ctxid != 0 && job in Next(ch, s).ctxs
    ensures Decided(ch.ctxs[job], Next(ch, s).ctxs[job], AnswerOf(s, ch.ctxs[job].ctxid), s == PollDone(job))
    ensures s == PollDone(job) ==>
      Next(ch, s).ctxs[job].retval == 0 && Next(ch, s).ctxs[job].flags == ch.ctxs[job].flags
  {
    JobIsNew(ch);
    if s.Respond? {
      ResponseMatchesById(ch, s.rsp, job);
      NotifyDecides(ch.ctxs[job], s.rsp);
    }
  }

  /** The part of context_notify_user that a response asks for. */
  function Notified(c: Ctx, rsp: Response): Ctx {
    Notify(c, rsp.retval, FlagsOf(rsp), if rsp.v2.Some? then rsp.v2.value.earlyTime else 0)
  }

  lemma NotifyDecides(c: Ctx, rsp: Response)
    ensures Decided(c, Notified(c, rsp), [rsp], false)
  {
    OneAnswer(rsp, c.async);
  }

  lemma OneAnswer(rsp: Response, async: bool)
    ensures WakeUps([rsp], async) == if Wakes(rsp, async) then 1 else 0
    ensures forall hint :: LastHint([rsp], hint) == HintAfter(rsp, hint)
    ensures AnyFinal([rsp]) <==> IsFinal(rsp)
    ensures AnyQueues([rsp]) <==> Queues(rsp)
  {
    assert [rsp][1..] == [] && rsp in [rsp];
  }

  lemma AnswersJoin(rsp: Response, rest: seq<Response>, async: bool)
    ensures WakeUps([rsp] + rest, async) == (if Wakes(rsp, async) then 1 else 0) + WakeUps(rest, async)
    ensures forall hint :: LastHint([rsp] + rest, hint) == LastHint(rest, HintAfter(rsp, hint))
    ensures AnyFinal([rsp] + rest) <==> IsFinal(rsp) || AnyFinal(rest)
    ensures AnyQueues([rsp] + rest) <==> Queues(rsp) || AnyQueues(rest)
  {
    assert ([rsp] + rest)[1..] == rest;
    assert forall r :: r in [rsp] + rest <==> r == rsp || r in rest;
  }

  /** A response is refused exactly if no context with a slot has its id, and decides those that have it. */
  lemma ResponseReaches(ch: Channel, rsp: Response)
    requires Inv(ch)
    ensures Target(ch, rsp).None? <==>
      forall job :: job in ch.ctxs && ch.ctxs[job].ctxid != 0 ==> !Answers(rsp, ch.ctxs[job].ctxid)
    ensures forall job :: job in ch.ctxs && ch.ctxs[job].ctxid != 0 ==>
      && job in RespondTo(ch, rsp).ctxs
      && Decided(ch.ctxs[job], RespondTo(ch, rsp).ctxs[job], AnswerOf(Step.Respond(rsp), ch.ctxs[job].ctxid), false)
    ensures forall job :: job in ch.ctxs && ch.ctxs[job].ctxid == 0 ==>
      job in RespondTo(ch, rsp).ctxs && RespondTo(ch, rsp).ctxs[job] == ch.ctxs[job]
  {
    forall job | job in ch.ctxs
      ensures Target(ch, rsp) == Some(job) <==> ch.ctxs[job].ctxid != 0 && Answers(rsp, ch.ctxs[job].ctxid)
      ensures job in RespondTo(ch, rsp).ctxs
      ensures ch.ctxs[job].ctxid != 0 ==>
        Decided(ch.ctxs[job], RespondTo(ch, rsp).ctxs[job], AnswerOf(Step.Respond(rsp), ch.ctxs[job].ctxid), false)
      ensures ch.ctxs[job].ctxid == 0 ==> RespondTo(ch, rsp).ctxs[job] == ch.ctxs[job]
    {
      ResponseMatchesById(ch, rsp, job);
      if ch.ctxs[job].ctxid != 0 {
        StepDecides(ch, Step.Respond(rsp), job);
      }
    }
    if Target(ch, rsp).Some? {
      ResponseMatchesById(ch, rsp, Target(ch, rsp).value);
    }
  }

  /** The effects of the first answer, if there is one, and of the rest are those of all. */
  lemma DecidedThen(c: Ctx, c1: Ctx, c2: Ctx, first: seq<Response>, p: bool, rest: seq<Response>, q: bool)
    requires |first| <= 1 && Decided(c, c1, first, p) && Decided(c1, c2, rest, q)
    ensures Decided(c, c2, first + rest, p || q)
  {
    if first == [] {
      assert first + rest == rest;
    } else {
      assert first == [first[0]];
      OneAnswer(first[0], c.async);
      AnswersJoin(first[0], rest, c.async);
    }
  }

  /**
    Over any run, a live context with a slot is exactly what the answers to its id have made of it: it
    has been completed once for each that wakes it, is done if and only if one was final or it was
    polled, is queued if and only if it is asynchronous and one queues it, and, unless polled, has the
    return value and the flags of the last.
   */
  lemma {:induction false} AnswersDecide(ch: Channel, steps: seq<Step>, ch': Channel, job: Job)
    requires Inv(ch) && Reaches(ch, steps, ch') && ch.jobid + |steps| < MAX_JOBS
    requires job in ch.ctxs && job in ch'.ctxs && ch.ctxs[job].ctxid != 0
    ensures Decided(ch.ctxs[job], ch'.ctxs[job], AnswersTo(steps, ch.ctxs[job].ctxid), PollDone(job) in steps)
    decreases |steps|
  {
    if steps != [] {
      var ch1, id := Next(ch, steps[0]), ch.ctxs[job].ctxid;
      NextKeeps(ch, steps[0]);
      RunKeeps(ch1, steps[1..], ch');
      assert CtxOk(ch, job);
      StepDecides(ch, steps[0], job);
      AnswersDecide(ch1, steps[1..], ch', job);
      DecidedThen(ch.ctxs[job], ch1.ctxs[job], ch'.ctxs[job], AnswerOf(steps[0], id), steps[0] == PollDone(job),
                  AnswersTo(steps[1..], id), PollDone(job) in steps[1..]);
      assert steps == [steps[0]] + steps[1..];
    }
  }

  /**
    A new context takes the lowest free slot that is open to it, with an id made of its job id and the
    slot, and has not been answered; if there is none it has id 0 and no slot.  No other context changes.
   */
  lemma AllocTakesSlot(ch: Channel, critical: bool, async: bool)
    requires Inv(ch) && ch.jobid + 1 < MAX_JOBS
    ensures var (i, ch') := AllocCtx(ch, critical, async);
      && var job, from := ch.jobid + 1, if critical then 0 else RESERVED;
      && job !in ch.ctxs && job in ch'.ctxs && ch'.ctxs == ch.ctxs[job := ch'.ctxs[job]] && ch'.jobid == job
      && var c := ch'.ctxs[job];
      && c.critical == critical && c.async == async && !c.done && !c.queued && c.completions == 0
      && from <= i <= |ch.table| && (forall k :: from <= k < i ==> ch.table[k].Some?)
      && (i < |ch.table| ==> ch.table[i].None? && ch'.table == ch.table[i := Some(job)] && Unanswered(ch', job)
                             && c.ctxid == job * 65536 + i * 64 + if async then 16 else 0)
      && (i == |ch.table| ==> ch'.table == ch.table && c.ctxid == 0)
  {
    JobIsNew(ch);
    var i := AllocCtx(ch, critical, async).0;
    if i < |ch.table| {
      CtxIdFits(ch.jobid + 1, i, async);
    }
  }

  lemma {:induction false} FinalWakes(answers: seq<Response>, async: bool)
    ensures AnyFinal(answers) ==> WakeUps(answers, async) > 0
  {
    if answers != [] {
      FinalWakes(answers[1..], async);
      assert forall r :: r in answers ==> r == answers[0] || r in answers[1..];
    }
  }

  /** A context with a slot that no response has reached and nobody has polled yet. */
  ghost predicate Unanswered(ch: Channel, job: Job) {
    job in ch.ctxs && ch.ctxs[job].ctxid != 0 && !ch.ctxs[job].done && !ch.ctxs[job].queued
    && ch.ctxs[job].completions == 0
  }

  /**
    From its allocation on: a context that is done without having been polled has been completed, was
    sent a final response with its id, and has the return value of the last response with its id; and
    one that no response with its id has reached is unanswered still.
   */
  lemma DoneMeansAnswered(ch: Channel, job: Job, steps: seq<Step>, ch': Channel)
    requires Inv(ch) && ch.jobid + |steps| < MAX_JOBS && Unanswered(ch, job)
    requires Reaches(ch, steps, ch') && job in ch'.ctxs && PollDone(job) !in steps
    ensures var c, answers := ch'.ctxs[job], AnswersTo(steps, ch.ctxs[job].ctxid);
      && (c.done ==> c.completions > 0 && AnyFinal(answers) && c.retval == answers[|answers| - 1].retval)
      && (answers == [] ==> Unanswered(ch', job))
  {
    AnswersDecide(ch, steps, ch', job);
    FinalWakes(AnswersTo(steps, ch.ctxs[job].ctxid), ch.ctxs[job].async);
  }

  /** Freeing a context takes it and its slot away, and nothing else; so it undoes its allocation. */
  lemma FreeGivesBack(ch: Channel, critical: bool, async: bool, job: Job)
    requires Inv(ch) && ch.jobid + 1 < MAX_JOBS
    ensures job in ch.ctxs ==> var ch' := Next(ch, Free(job));
      && ch'.ctxs == ch.ctxs - {job} && |ch'.table| == |ch.table|
      && forall i :: 0 <= i < |ch.table| ==> ch'.table[i] == if ch.table[i] == Some(job) then None else ch.table[i]
    ensures var back := Next(Next(ch, Alloc(critical, async)), Free(ch.jobid + 1));
      back.table == ch.table && back.ctxs == ch.ctxs
  {
    AllocTakesSlot(ch, critical, async);
    var ch1 := Next(ch, Alloc(critical, async));
    var back := Next(ch1, Free(ch.jobid + 1));
    assert back.ctxs == ch.ctxs;
    forall i | 0 <= i < |ch.table| ensures back.table[i] == ch.table[i] {
      assert SlotOk(ch, i);
    }
    assert back.table == ch.table;
  }

  // ---------------------------------------------------------------------------------------
  // Reserved slots
  // ---------------------------------------------------------------------------------------

  /**
    A critical call is refused only when every slot is taken, and then the reserved ones are all
    taken by critical calls; any other call is refused only when every open slot is taken.
   */
  lemma RefusedOnlyWhenFull(ch: Channel, critical: bool, async: bool)
    requires Inv(ch)
    ensures AllocCtx(ch, critical, async).0 == |ch.table| <==>
      forall i :: FirstSlotFor(critical) <= i < |ch.table| ==> ch.table[i].Some?
    ensures critical && AllocCtx(ch, critical, async).0 == |ch.table| ==>
      forall i :: 0 <= i < RESERVED ==>
        ch.table[i].Some? && ch.table[i].value in ch.ctxs && ch.ctxs[ch.table[i].value].critical
  {
    var i := FirstFree(ch.table, FirstSlotFor(critical));
    forall k | 0 <= k < RESERVED && ch.table[k].Some?
      ensures ch.table[k].value in ch.ctxs && ch.ctxs[ch.table[k].value].critical
    {
      assert SlotOk(ch, k);
    }
  }

  /**
    In every run of the channel: a response reaches a context exactly if that context is live, has a
    slot and carries the response's id; contexts in different slots have different ids; and the
    reserved slots are only ever held by critical calls.
   */
  lemma EveryRunMatchesById(max: nat, steps: seq<Step>, ch: Channel, rsp: Response, job: Job)
    requires ValidMax(max) && |steps| < MAX_JOBS
    requires Reaches(Channel(seq(max, _ => None), map[], 0), steps, ch)
    ensures |ch.table| == max
    ensures Target(ch, rsp) == Some(job) <==>
      && job in ch.ctxs && ch.ctxs[job].ctxid != 0 && ch.ctxs[job].ctxid == WithoutPd(rsp.ctx)
      && (rsp.v2.Some? ==> rsp.v2.value.version == RSP_VERSION2)
    ensures forall i, j :: 0 <= i < j < max && ch.table[i].Some? && ch.table[j].Some? ==>
      && ch.table[i].value in ch.ctxs && ch.table[j].value in ch.ctxs
      && ch.ctxs[ch.table[i].value].ctxid != ch.ctxs[ch.table[j].value].ctxid
    ensures forall i :: 0 <= i < RESERVED && ch.table[i].Some? ==>
      ch.table[i].value in ch.ctxs && ch.ctxs[ch.table[i].value].critical
  {
    InitOk(max);
    RunKeeps(Channel(seq(max, _ => None), map[], 0), steps, ch);
    ResponseMatchesById(ch, rsp, job);
    forall i, j | 0 <= i < j < max && ch.table[i].Some? && ch.table[j].Some?
      ensures ch.table[i].value in ch.ctxs && ch.table[j].value in ch.ctxs
      ensures ch.ctxs[ch.table[i].value].ctxid != ch.ctxs[ch.table[j].value].ctxid
    {
      IdsAreDistinct(ch, i, j);
    }
    forall i | 0 <= i < RESERVED && ch.table[i].Some?
      ensures ch.table[i].value in ch.ctxs && ch.ctxs[ch.table[i].value].critical
    {
      assert SlotOk(ch, i);
    }
  }

  // ---------------------------------------------------------------------------------------
  // The table in memory
  // ---------------------------------------------------------------------------------------

  /** The scan of context_alloc, in place. */
  method TakeSlot(table: array<Option<Job>>, critical: bool, job: Job) returns (i: nat)
    requires RESERVED <= table.Length
    modifies table
    ensures i == FirstFree(old(table[..]), FirstSlotFor(critical))
    ensures table[..] == if i < table.Length then old(table[..])[i := Some(job)] else old(table[..])
  {
    i := if critical then 0 else RESERVED;
    while i < table.Length
      invariant FirstSlotFor(critical) <= i <= table.Length && table[..] == old(table[..])
      invariant FirstFree(table[..], i) == FirstFree(table[..], FirstSlotFor(critical))
    {
      if table[i].None? {
        table[i] := Some(job);
        break;
      }
      i := i + 1;
    }
  }

  /**
    The release of a slot in context_free: the slot the id names, and a scan when that is not the
    context's own.  With at most one slot per context both ways empty exactly its slot.
   */
  method GiveSlot(table: array<Option<Job>>, job: Job, ctxid: u64)
    requires table.Length > 0
    requires forall i, j :: 0 <= i < j < table.Length && table[i] == Some(job) ==> table[j] != Some(job)
    modifies table
    ensures table[..] == ClearSlots(old(table[..]), job)
  {
    var i := TableIdx(ctxid, table.Length);
    if table[i] == Some(job) {
      table[i] := None;
    } else {
      i := 0;
      while i < table.Length
        invariant i <= table.Length && table[..] == old(table[..])
        invariant forall j :: 0 <= j < i ==> table[j] != Some(job)
      {
        if table[i] == Some(job) {
          table[i] := None;
          break;
        }
        i := i + 1;
      }
    }
  }

  /** struct vfastrpc_channel_ctx; each method is one region under ctxlock. */
  class ChannelTable {
    const table: array<Option<Job>>
    var ctxs: map<Job, Ctx>
    var jobid: nat

    constructor (max: nat)
      requires ValidMax(max)
      ensures Inv(View()) && View() == Channel(seq(max, _ => None), map[], 0) && fresh(table)
    {
      table := new Option<Job>[max](_ => None);
      ctxs, jobid := map[], 0;
      new;
      InitOk(max);
      assert table[..] == seq(max, _ => None);
    }

    function View(): Channel
      reads this, table
    {
      Channel(table[..], ctxs, jobid)
    }

    /** context_alloc; the table size stands for a full table. */
    method AllocContext(critical: bool, async: bool) returns (i: nat)
      requires Inv(View()) && jobid + 1 < MAX_JOBS
      modifies this, table
      ensures Inv(View()) && (i, View()) == AllocCtx(old(View()), critical, async)
    {
      AllocKeeps(View(), critical, async);
      jobid := jobid + 1;
      var c := Ctx(0, critical, async, false, -1, Normal, 0, false, 0);
      i := TakeSlot(table, critical, jobid);
      if i < table.Length {
        c := c.(ctxid := CtxId(jobid, i, async));
      }
      ctxs := ctxs[jobid := c];
    }

    /** context_free */
    method FreeContext(job: Job)
      requires Inv(View()) && job in ctxs
      modifies this, table
      ensures Inv(View()) && View() == FreeCtx(old(View()), job)
    {
      FreeKeeps(View(), job);
      forall i, j | 0 <= i < j < table.Length && table[i] == Some(job) ensures table[j] != Some(job) {
        if table[j] == Some(job) {
          IdsAreDistinct(View(), i, j);
        }
      }
      GiveSlot(table, job, ctxs[job].ctxid);
      ctxs := ctxs - {job};
    }

    /** fastrpc_handle_rpc_response and context_notify_user; `err` says that the response is refused. */
    method Respond(rsp: Response) returns (err: bool)
      requires Inv(View())
      modifies this`ctxs
      ensures Inv(View()) && View() == RespondTo(old(View()), rsp)
      ensures err <==> forall job :: job in old(ctxs) && old(ctxs)[job].ctxid != 0 ==>
        !Answers(rsp, old(ctxs)[job].ctxid)
      ensures forall job :: job in old(ctxs) && old(ctxs)[job].ctxid != 0 ==>
        job in ctxs && Decided(old(ctxs)[job], ctxs[job], AnswerOf(Step.Respond(rsp), old(ctxs)[job].ctxid), false)
      ensures forall job :: job in old(ctxs) && old(ctxs)[job].ctxid == 0 ==> job in ctxs && ctxs[job] == old(ctxs)[job]
    {
      ResponseReaches(View(), rsp);
      NextKeeps(View(), Step.Respond(rsp));
      var index := TableIdx(rsp.ctx, table.Length);
      assert SlotOk(View(), index);
      var found := table[index];
      if found.None? || ctxs[found.value].ctxid != WithoutPd(rsp.ctx) {
        return true;
      }
      if rsp.v2.Some? && rsp.v2.value.version != RSP_VERSION2 {
        return true;
      }
      var job := found.value;
      var flags := if rsp.v2.Some? then rsp.v2.value.flags else Normal;
      var early := if rsp.v2.Some? then rsp.v2.value.earlyTime else 0;
      ctxs := ctxs[job := Notify(ctxs[job], rsp.retval, flags, early)];
      err := false;
    }
  }
}

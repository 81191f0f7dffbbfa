/** Whole runs of the typing core: what an observer who sees only requests, statuses and emitted
    strokes can rely on, for every sequence of calls from initialisation. */
module CoreRuns {
  import opened Bytes
  import opened Keymap
  import opened Compiler
  import opened CoreSpec

  datatype Op =
    | StageOp(r: Request)
    | ConfirmOp(job: Entry, now: nat)
    | CancelOp(job: Entry)
    | TickOp(now: nat)
    | NextOp(now: nat)
    | AbortOp

  predicate Legal(op: Op) {
    op.StageOp? ==> op.r.Readable()
  }

  function Apply(c: Core, op: Op): (Core, Status, Stroke)
    requires Legal(op)
  {
    match op
    case StageOp(r) => (Stage(c, r).0, Stage(c, r).1, NO_STROKE)
    case ConfirmOp(job, now) => (Confirm(c, job, now).0, Confirm(c, job, now).1, NO_STROKE)
    case CancelOp(job) => (Cancel(c, job).0, Cancel(c, job).1, NO_STROKE)
    case TickOp(now) => (Tick(c, now).0, Tick(c, now).1, NO_STROKE)
    case NextOp(now) => Next(c, now)
    case AbortOp => (Abort(c), Ok, NO_STROKE)
  }

  // ---- The observer's log ----

  /** What was observed of one accepted job, latest job last in the log. */
  datatype JobLog = JobLog(
    request: Request, confirmedBy: Option<Entry>, emitted: seq<Stroke>, done: bool)

  /** `orphans` collects strokes seen while no job was ever accepted. */
  datatype Run = Run(core: Core, jobs: seq<JobLog>, orphans: seq<Stroke>)

  const START := Run(Initial(), [], [])

  function WithLast(jobs: seq<JobLog>, j: JobLog): seq<JobLog>
    requires jobs != []
  {
    jobs[..|jobs| - 1] + [j]
  }

  function Observe(run: Run, op: Op): Run
    requires Legal(op)
  {
    var (core, status, stroke) := Apply(run.core, op);
    if op.StageOp? && status == Ok then
      Run(core, run.jobs + [JobLog(op.r, None, [], false)], run.orphans)
    else if op.ConfirmOp? && status == Ok && run.jobs != [] then
      Run(core, WithLast(run.jobs, Last(run.jobs).(confirmedBy := Some(op.job))), run.orphans)
    else if op.NextOp? && status == Ok then
      if run.jobs == [] then Run(core, [], run.orphans + [stroke])
      else
        var j := Last(run.jobs);
        Run(core, WithLast(run.jobs, j.(emitted := j.emitted + [stroke])), run.orphans)
    else if op.NextOp? && status == Done && run.jobs != [] then
      Run(core, WithLast(run.jobs, Last(run.jobs).(done := true)), run.orphans)
    else Run(core, run.jobs, run.orphans)
  }

  function Last(jobs: seq<JobLog>): JobLog
    requires jobs != []
  {
    jobs[|jobs| - 1]
  }

  predicate AllLegal(ops: seq<Op>) {
    forall i | 0 <= i < |ops| :: Legal(ops[i])
  }

  function ObserveAll(run: Run, ops: seq<Op>): Run
    requires AllLegal(ops)
    decreases |ops|
  {
    if ops == [] then run else ObserveAll(Observe(run, ops[0]), ops[1..])
  }

  // ---- What holds of every run ----

  function Text(r: Request): seq<Byte> {
    if r.text.Some? && r.length <= |r.text.value| then r.text.value[..r.length] else []
  }

  function CompiledOf(r: Request): seq<Stroke> {
    match Compile(Text(r), r.policy)
    case Strokes(s) => s
    case Reject(_) => []
  }

  /** Strokes come out in order and once; none before a confirm that named this job; completion
      is reported only after the last of them. */
  ghost predicate JobSafe(j: JobLog) {
    && Compile(Text(j.request), j.request.policy).Strokes?
    && j.emitted <= CompiledOf(j.request)
    && (j.emitted != [] || j.done ==> j.confirmedBy == Some(j.request.job))
    && (j.done ==> j.emitted == CompiledOf(j.request))
  }

  function Jobs(jobs: seq<JobLog>): (s: seq<Entry>)
    ensures |s| == |jobs| && forall i | 0 <= i < |s| :: s[i] == jobs[i].request.job
  {
    seq(|jobs|, i requires 0 <= i < |jobs| => jobs[i].request.job)
  }

  ghost predicate Distinct(s: seq<Entry>) {
    forall i, j | 0 <= i < j < |s| :: s[i] != s[j]
  }

  /** The job region is zero outside a job, behind the cursor, and past the count. */
  ghost predicate Wiped(c: Core) {
    && |c.strokes| == MAX_STROKES && c.cursor <= c.count <= MAX_STROKES
    && (!c.Busy() ==> c == Terminated(c, c.state))
    && (c.state == Staged ==> c.cursor == 0)
    && (forall k | 0 <= k < c.cursor :: c.strokes[k] == NO_STROKE)
    && (forall k | c.count <= k < MAX_STROKES :: c.strokes[k] == NO_STROKE)
  }

  /** While a job is held, the core and the log tell the same story about it. */
  ghost predicate Current(c: Core, j: JobLog) {
    && c.job == j.request.job && c.policy == j.request.policy && c.ttl == j.request.ttl
    && c.stagedAt == j.request.now
    && c.count == |CompiledOf(j.request)|
    && c.cursor <= c.count <= |c.strokes|
    && j.emitted == CompiledOf(j.request)[..c.cursor]
    && c.strokes[c.cursor..c.count] == CompiledOf(j.request)[c.cursor..]
    && !j.done
    && (c.state == Executing ==> j.confirmedBy == Some(j.request.job))
    && (c.state == Staged ==> j.confirmedBy == None)
  }

  ghost predicate Consistent(run: Run) {
    && Wiped(run.core)
    && run.orphans == []
    && run.core.ledger == Jobs(run.jobs) && Distinct(run.core.ledger) && |run.jobs| <= LEDGER_CAPACITY
    && (forall i | 0 <= i < |run.jobs| :: JobSafe(run.jobs[i]))
    && (run.core.Busy() ==> run.jobs != [] && Current(run.core, Last(run.jobs)))
  }

  lemma StageKeeps(run: Run, r: Request)
    requires Consistent(run) && r.Readable()
    ensures Consistent(Observe(run, StageOp(r)))
  {
    hide Compile;
    if Stage(run.core, r).1 == Ok {
      var after := Observe(run, StageOp(r));
      StagedJob(run.core, r);
      assert Jobs(after.jobs) == Jobs(run.jobs) + [r.job];
    }
  }

  lemma StagedJob(c: Core, r: Request)
    requires r.Readable() && Stage(c, r).1 == Ok
    ensures var c' := Stage(c, r).0; var j := JobLog(r, None, [], false);
            && c'.state == Staged && c'.ledger == c.ledger + [r.job]
            && r.job !in c.ledger && |c.ledger| != LEDGER_CAPACITY
            && Wiped(c') && Current(c', j) && JobSafe(j)
  {
    var text := r.text.value[..r.length];
    CompileStatus(text, r.policy);
    StrokeBound(text, r.policy);
    assert Text(r) == text;
    var s := Compile(text, r.policy).strokes;
    var zeros := Zeros(MAX_STROKES - |s|);
    assert (s + zeros)[0..|s|] == s;
    assert s[..0] == [] && s[0..] == s;
  }

  lemma JobsKept(jobs: seq<JobLog>, j: JobLog)
    requires jobs != [] && j.request == Last(jobs).request
    ensures Jobs(WithLast(jobs, j)) == Jobs(jobs)
    ensures |WithLast(jobs, j)| == |jobs| && Last(WithLast(jobs, j)) == j
    ensures (forall i | 0 <= i < |jobs| :: JobSafe(jobs[i])) && JobSafe(j) ==>
              forall i | 0 <= i < |jobs| :: JobSafe(WithLast(jobs, j)[i])
  {
  }

  /** Updating the core and the entry of the job it holds keeps the run consistent. */
  lemma Updated(run: Run, core: Core, j: JobLog)
    requires Consistent(run) && run.jobs != [] && j.request == Last(run.jobs).request
    requires core.ledger == run.core.ledger && Wiped(core) && JobSafe(j)
    requires core.Busy() ==> Current(core, j)
    ensures Consistent(Run(core, WithLast(run.jobs, j), run.orphans))
  {
    JobsKept(run.jobs, j);
  }

  lemma ConfirmKeeps(run: Run, job: Entry, now: nat)
    requires Consistent(run)
    ensures Consistent(Observe(run, ConfirmOp(job, now)))
  {
    hide Compile;
    var (core, status) := Confirm(run.core, job, now);
    if status == Ok {
      Updated(run, core, Last(run.jobs).(confirmedBy := Some(job)));
    }
  }

  lemma NextStroke(c: Core, j: JobLog, now: nat)
    requires Wiped(c) && Current(c, j) && JobSafe(j) && Next(c, now).1 == Ok
    ensures var (c', _, stroke) := Next(c, now); var j' := j.(emitted := j.emitted + [stroke]);
            Wiped(c') && Current(c', j') && JobSafe(j') && c'.ledger == c.ledger && c'.Busy()
  {
    EmitOne(c.strokes, CompiledOf(j.request), c.cursor, c.count);
  }

  /** Taking the stroke at the cursor and zeroing it moves one stroke from pending to emitted. */
  lemma EmitOne(strokes: seq<Stroke>, all: seq<Stroke>, at: nat, count: nat)
    requires at < count == |all| <= |strokes| && strokes[at..count] == all[at..]
    ensures all[..at] + [strokes[at]] == all[..at + 1]
    ensures strokes[at := NO_STROKE][at + 1..count] == all[at + 1..]
  {
    assert strokes[at] == strokes[at..count][0] == all[at];
    assert strokes[at := NO_STROKE][at + 1..count] == strokes[at..count][1..];
  }

  lemma NextDone(c: Core, j: JobLog, now: nat)
    requires Wiped(c) && (c.Busy() ==> Current(c, j)) && JobSafe(j) && Next(c, now).1 == Done
    ensures var c' := Next(c, now).0;
            Wiped(c') && JobSafe(j.(done := true)) && c'.ledger == c.ledger && !c'.Busy()
  {
    var all := CompiledOf(j.request);
    assert all[..c.cursor] == all;
  }

  lemma NextEmits(run: Run, now: nat)
    requires Consistent(run) && Next(run.core, now).1 == Ok
    ensures Consistent(Observe(run, NextOp(now)))
  {
    hide Compile;
    var (core, _, stroke) := Next(run.core, now);
    var j := Last(run.jobs);
    NextStroke(run.core, j, now);
    Updated(run, core, j.(emitted := j.emitted + [stroke]));
  }

  lemma NextFinishes(run: Run, now: nat)
    requires Consistent(run) && Next(run.core, now).1 == Done
    ensures Consistent(Observe(run, NextOp(now)))
  {
    hide Compile;
    var j := Last(run.jobs);
    NextDone(run.core, j, now);
    Updated(run, Next(run.core, now).0, j.(done := true));
  }

  lemma NextRefused(run: Run, now: nat)
    requires Consistent(run) && Next(run.core, now).1 != Done && Next(run.core, now).1 != Ok
    ensures Consistent(Observe(run, NextOp(now)))
  {
    hide Compile;
  }

  lemma StepKeeps(run: Run, op: Op)
    requires Consistent(run) && Legal(op)
    ensures Consistent(Observe(run, op))
  {
    hide Compile;
    match op
    case StageOp(r) => StageKeeps(run, r);
    case ConfirmOp(job, now) => ConfirmKeeps(run, job, now);
    case NextOp(now) =>
      if Next(run.core, now).1 == Ok {
        NextEmits(run, now);
      } else if Next(run.core, now).1 == Done {
        NextFinishes(run, now);
      } else {
        NextRefused(run, now);
      }
    case CancelOp(job) =>
    case TickOp(now) =>
    case AbortOp =>
  }

  lemma {:induction false} EveryRun(run: Run, ops: seq<Op>)
    requires Consistent(run) && AllLegal(ops)
    ensures Consistent(ObserveAll(run, ops))
    decreases |ops|
  {
    if ops != [] {
      StepKeeps(run, ops[0]);
      EveryRun(Observe(run, ops[0]), ops[1..]);
    }
  }

  lemma StartConsistent()
    ensures Consistent(START)
  {
    assert Jobs([]) == [];
  }

  /** Exactly-once emission, wiping and the replay ledger, over every run from initialisation. */
  lemma EveryRunIsSafe(ops: seq<Op>)
    requires AllLegal(ops)
    ensures var run := ObserveAll(START, ops);
            && (forall i | 0 <= i < |run.jobs| :: JobSafe(run.jobs[i]))
            && run.orphans == []
            && Wiped(run.core)
            && Jobs(run.jobs) == run.core.ledger && Distinct(run.core.ledger) && |run.jobs| <= 64
  {
    StartConsistent();
    EveryRun(START, ops);
  }

  /** No stroke that was typed lies outside the report descriptor, and a password job types
      neither Enter nor Tab. */
  lemma EmittedStrokesAreTypeable(ops: seq<Op>)
    requires AllLegal(ops)
    ensures forall j <- ObserveAll(START, ops).jobs, s <- j.emitted ::
              Typeable(s) && (j.request.policy.mode == 1 ==> s.usage != 0x28 && s.usage != 0x2b)
  {
    hide ObserveAll, JobSafe, Compile;
    EveryRunIsSafe(ops);
    forall j <- ObserveAll(START, ops).jobs
      ensures forall s <- j.emitted :: Typeable(s) && (j.request.policy.mode == 1 ==> s.usage != 0x28 && s.usage != 0x2b)
    {
      JobTypeable(j);
    }
  }

  lemma JobTypeable(j: JobLog)
    requires JobSafe(j)
    ensures forall s <- j.emitted :: Typeable(s) && (j.request.policy.mode == 1 ==> s.usage != 0x28 && s.usage != 0x2b)
  {
    hide Compile;
    StrokesAreSafe(Text(j.request), j.request.policy);
    var all := CompiledOf(j.request);
    forall s <- j.emitted
      ensures Safe(s, j.request.policy)
    {
      var i :| 0 <= i < |j.emitted| && j.emitted[i] == s;
      assert all[i] == s;
    }
  }

  // ---- One call ----

  /** A refused call changes nothing; the ledger only grows, and only when a job is accepted. */
  lemma Refusals(c: Core, op: Op)
    requires Legal(op)
    ensures var (c', status, stroke) := Apply(c, op);
            && (status in {ErrBusy, ErrOwner, ErrId} ==> c' == c)
            && (status == ErrState ==> c' == c)
            && c'.ledger == (if op.StageOp? && status == Ok then c.ledger + [op.r.job] else c.ledger)
            && (status != Ok || !op.NextOp? ==> stroke == NO_STROKE)
  {
    if op.StageOp? && Preflight(c.ledger, op.r) == Ok {
      CompileStatus(op.r.text.value[..op.r.length], op.r.policy);
    }
  }

  lemma {:induction false} CompileStatus(text: seq<Byte>, p: Policy)
    ensures Compile(text, p).Reject? ==> Compile(text, p).status in {ErrUtf8, ErrPolicy, ErrUnsupported}
    decreases |text|
  {
    if text != [] && Head(text, p).Char? {
      CompileStatus(text[Head(text, p).size..], p);
    }
  }

  /** A request that names a job, a known layout and mode, a lifetime of at most 15 s, 1 to 1024
      bytes of text, and no flags its mode does not have. */
  ghost predicate Proper(r: Request) {
    && r.text.Some? && 1 <= r.length <= 1024 && 1 <= r.ttl <= 15000
    && r.job.owner != 0 && r.job.id != 0
    && r.policy.layout in {1, 2} && r.policy.mode in {1, 2}
    && r.policy.flags < if r.policy.mode == 2 then 4 else 1
  }

  /** The text is UTF-8 made of characters of the layout, plus LF in text mode under flags 1 or 3 and
      Tab in text mode under flags 2 or 3, CR LF read as LF. */
  ghost predicate TextAllowed(r: Request) {
    && DecodeAll(Text(r)).Some?
    && forall cp <- Meaning(Text(r)) ::
         || Character(r.policy.layout, cp)
         || (cp == 10 && r.policy.mode == 2 && r.policy.flags in {1, 3})
         || (cp == 9 && r.policy.mode == 2 && r.policy.flags in {2, 3})
  }

  lemma TextAllowedIsAcceptable(r: Request)
    requires r.policy.flags < 4
    ensures TextAllowed(r) <==> Acceptable(Text(r), r.policy)
  {
    var m, p := Meaning(Text(r)), r.policy;
    assert forall cp :: Allowed(p, cp) <==>
      (Character(p.layout, cp) || (cp == 10 && p.mode == 2 && p.flags in {1, 3}) || (cp == 9 && p.mode == 2 && p.flags in {2, 3}));
    assert (forall cp <- m :: Allowed(p, cp)) <==> AllAllowed(p, m);
  }

  /** Staging succeeds exactly for a proper request of a new job, while no job is held and the ledger
      has room, whose text is UTF-8 made of characters the policy allows. */
  lemma StageAcceptsExactly(c: Core, r: Request)
    requires r.Readable()
    ensures Stage(c, r).1 == Ok <==>
              && !c.Busy() && Proper(r) && r.job !in c.ledger && |c.ledger| != 64
              && TextAllowed(r)
  {
    hide Compile;
    if !c.Busy() && Preflight(c.ledger, r) == Ok {
      assert Text(r) == r.text.value[..r.length];
      AcceptsExactly(Text(r), r.policy);
      TextAllowedIsAcceptable(r);
      CompileStatus(Text(r), r.policy);
    }
  }

  /** A job whose owner and id were accepted before is refused forever. */
  lemma NeverAcceptedTwice(ops: seq<Op>, r: Request)
    requires AllLegal(ops) && r.Readable()
    requires r.job in Jobs(ObserveAll(START, ops).jobs)
    ensures Stage(ObserveAll(START, ops).core, r).1 != Ok
  {
    EveryRunIsSafe(ops);
    assert r.job in ObserveAll(START, ops).core.ledger;
  }

  /** With 64 jobs accepted, no further job is. */
  lemma AtMostSixtyFour(ops: seq<Op>, r: Request)
    requires AllLegal(ops) && r.Readable() && |ObserveAll(START, ops).jobs| == 64
    ensures Stage(ObserveAll(START, ops).core, r).1 != Ok
  {
    EveryRunIsSafe(ops);
  }

  // ---- A controller's tick ----

  /** The job was accepted once and is not held now. */
  ghost predicate Gone(c: Core, job: Entry) {
    job in c.ledger && !(c.Busy() && c.job == job)
  }

  lemma GoneStays(c: Core, op: Op, job: Entry)
    requires Legal(op) && Gone(c, job)
    ensures Gone(Apply(c, op).0, job)
  {
    hide Compile;
    Refusals(c, op);
  }

  lemma {:induction false} GoneForever(run: Run, ops: seq<Op>, job: Entry)
    requires AllLegal(ops) && Gone(run.core, job)
    ensures Gone(ObserveAll(run, ops).core, job)
    decreases |ops|
  {
    hide Apply;
    if ops != [] {
      GoneStays(run.core, ops[0], job);
      GoneForever(Observe(run, ops[0]), ops[1..], job);
    }
  }

  lemma {:induction false} SameCore(x: Run, y: Run, ops: seq<Op>)
    requires AllLegal(ops) && x.core == y.core
    ensures ObserveAll(x, ops).core == ObserveAll(y, ops).core
    decreases |ops|
  {
    if ops != [] {
      SameCore(Observe(x, ops[0]), Observe(y, ops[0]), ops[1..]);
    }
  }

  /** A tick of any value, put anywhere into any run, never turns a confirm of the job held then from
      refused to accepted: it can only shorten that job's life. */
  lemma TickNeverExtends(before: seq<Op>, tick: nat, after: seq<Op>, now: nat)
    requires AllLegal(before) && AllLegal(after)
    ensures var run := ObserveAll(START, before);
            var plain := ObserveAll(run, after).core;
            var ticked := ObserveAll(Observe(run, TickOp(tick)), after).core;
            Confirm(ticked, run.core.job, now).1 == Ok ==> Confirm(plain, run.core.job, now).1 == Ok
  {
    hide Compile;
    EveryRunIsSafe(before);
    StartConsistent();
    EveryRun(START, before);
    var run := ObserveAll(START, before);
    if Tick(run.core, tick).1 == ErrExpired {
      assert run.core.job == Last(run.jobs).request.job == Jobs(run.jobs)[|run.jobs| - 1];
      GoneForever(Observe(run, TickOp(tick)), after, run.core.job);
    } else {
      SameCore(run, Observe(run, TickOp(tick)), after);
    }
  }
}

/** What each call of the typing core answers, in every case, and what it leaves behind, in the
    numbers of the public header. */
module CoreAnswers {
  import opened Bytes
  import opened Keymap
  import opened Compiler
  import opened CoreSpec
  import opened CoreRuns

  /** No job: every job field and all 2048 strokes are zero; the ledger is as given. */
  ghost predicate Bare(c: Core, state: State, ledger: seq<Entry>) {
    && c.state == state && c.ledger == ledger
    && c.job == Entry(0, 0) && c.stagedAt == 0 && c.ttl == 0 && c.policy == Policy(0, 0, 0)
    && c.count == 0 && c.cursor == 0 && |c.strokes| == 2048
    && forall k | 0 <= k < 2048 :: c.strokes[k] == Stroke(0, 0)
  }

  lemma TerminatedIsBare(c: Core, state: State)
    ensures Bare(Terminated(c, state), state, c.ledger)
  {
  }

  lemma InitiallyBare()
    ensures Bare(Initial(), Empty, [])
  {
  }

  predicate Held(c: Core) {
    c.state == Staged || c.state == Executing
  }

  predicate FieldsWrong(r: Request) {
    || r.text.None? || r.job.owner == 0 || r.job.id == 0
    || r.policy.layout !in {1, 2} || r.policy.mode !in {1, 2} || !(1 <= r.ttl <= 15000)
  }

  /** Every refusal of a stage call, in the order the checks apply. */
  lemma StageRefusals(c: Core, r: Request)
    requires r.Readable()
    ensures var (after, status) := Stage(c, r);
            && (Held(c) ==> (after, status) == (c, ErrBusy))
            && (!Held(c) && status != Ok ==> Bare(after, Rejected, c.ledger))
            && (!Held(c) ==>
                  if !(1 <= r.length <= 1024) then status == ErrLimit
                  else if FieldsWrong(r) then status == ErrArgument
                  else if r.policy.flags >= 4 || (r.policy.mode == 1 && r.policy.flags != 0) then status == ErrPolicy
                  else if r.job in c.ledger then status == ErrReplay
                  else if |c.ledger| == 64 then status == ErrLimit
                  else
                    var bad := Offender(Text(r), r.policy);
                    bad != [] ==>
                      status == match Utf8.DecodeOne(bad)
                                case Bad => ErrUtf8
                                case Char(cp, _) => if cp < 32 || cp == 127 then ErrPolicy else ErrUnsupported)
  {
    hide Compile, Utf8.DecodeOne;
    if !Held(c) && Preflight(c.ledger, r) == Ok {
      assert Text(r) == r.text.value[..r.length];
      if Compile(Text(r), r.policy).Reject? {
        RejectionNamesOffender(Text(r), r.policy);
      } else {
        NoOffender(Text(r), r.policy);
      }
    }
  }

  lemma {:induction false} NoOffender(text: seq<Byte>, p: Policy)
    requires Compile(text, p).Strokes?
    ensures Offender(text, p) == []
    decreases |text|
  {
    hide CompileChar, Utf8.DecodeOne;
    if text != [] {
      CharAccepted(Head(text, p).cp, p);
      NoOffender(text[Head(text, p).size..], p);
    }
  }

  /** A staged job holds exactly what was asked, waits at its first stroke, and is remembered. */
  lemma StageAccepts(c: Core, r: Request)
    requires r.Readable() && Stage(c, r).1 == Ok
    ensures var c' := Stage(c, r).0;
            && c'.state == Staged && c'.ledger == c.ledger + [r.job]
            && c'.job == r.job && c'.policy == r.policy && c'.stagedAt == r.now && c'.ttl == r.ttl
            && c'.cursor == 0 && c'.count == |CompiledOf(r)| <= |c'.strokes|
            && c'.strokes[..c'.count] == CompiledOf(r)
  {
    hide Compile;
    StagedJob(c, r);
    assert CompiledOf(r)[0..] == CompiledOf(r);
  }

  predicate Overdue(c: Core, now: nat) {
    c.state == Staged && (now - c.stagedAt) % 0x1_0000_0000 >= c.ttl
  }

  lemma TickAnswers(c: Core, now: nat)
    ensures var (after, status) := Tick(c, now);
            if Overdue(c, now) then status == ErrExpired && Bare(after, Expired, c.ledger) else (after, status) == (c, Ok)
  {
  }

  lemma ConfirmAnswers(c: Core, job: Entry, now: nat)
    ensures var (after, status) := Confirm(c, job, now);
            if c.state != Staged then (after, status) == (c, ErrState)
            else if job.owner != c.job.owner then (after, status) == (c, ErrOwner)
            else if job.id != c.job.id then (after, status) == (c, ErrId)
            else if Overdue(c, now) then status == ErrExpired && Bare(after, Expired, c.ledger)
            else status == Ok && after == c.(state := Executing)
  {
  }

  /** A cancel that names the held job, staged or executing, succeeds and wipes it; any other changes
      nothing. */
  lemma CancelAnswers(c: Core, job: Entry)
    ensures var (after, status) := Cancel(c, job);
            if !Held(c) then (after, status) == (c, ErrState)
            else if job.owner != c.job.owner then (after, status) == (c, ErrOwner)
            else if job.id != c.job.id then (after, status) == (c, ErrId)
            else status == Ok && Bare(after, Cancelled, c.ledger)
  {
  }

  /** An abort ends whatever there was. */
  lemma AbortAnswers(c: Core)
    ensures Bare(Abort(c), Cancelled, c.ledger)
  {
  }

  lemma NextAnswers(c: Core, now: nat)
    requires Wiped(c)
    ensures var (after, status, stroke) := Next(c, now);
            if Overdue(c, now) then status == ErrExpired && stroke == Stroke(0, 0) && Bare(after, Expired, c.ledger)
            else if c.state != Executing then (after, status, stroke) == (c, ErrState, Stroke(0, 0))
            else if c.cursor == c.count then status == Done && stroke == Stroke(0, 0) && Bare(after, Completed, c.ledger)
            else
              && status == Ok && stroke == c.strokes[c.cursor]
              && after == c.(strokes := c.strokes[c.cursor := Stroke(0, 0)], cursor := c.cursor + 1)
  {
  }

  // ---- Silence ----

  function ApplyAll(c: Core, ops: seq<Op>): Core
    requires AllLegal(ops)
    decreases |ops|
  {
    if ops == [] then c else ApplyAll(Apply(c, ops[0]).0, ops[1..])
  }

  /** The strokes that a run of calls hands out. */
  function Emitted(c: Core, ops: seq<Op>): seq<Stroke>
    requires AllLegal(ops)
    decreases |ops|
  {
    if ops == [] then []
    else
      var (after, status, stroke) := Apply(c, ops[0]);
      (if ops[0].NextOp? && status == Ok then [stroke] else []) + Emitted(after, ops[1..])
  }

  /** From any state but executing, no stroke comes out until the next confirm. */
  lemma {:induction false} SilentUntilConfirm(c: Core, ops: seq<Op>)
    requires AllLegal(ops) && c.state != Executing && forall op <- ops :: !op.ConfirmOp?
    ensures Emitted(c, ops) == [] && ApplyAll(c, ops).state != Executing
    decreases |ops|
  {
    hide Compile;
    if ops != [] {
      assert !ops[0].ConfirmOp?;
      SilentUntilConfirm(Apply(c, ops[0]).0, ops[1..]);
    }
  }

  /** After a cancel that names the held job, and after an abort, no stroke comes out until the next
      confirm, whatever else is called. */
  lemma EndedIsSilent(c: Core, job: Entry, ops: seq<Op>)
    requires AllLegal(ops) && forall op <- ops :: !op.ConfirmOp?
    ensures Cancel(c, job).1 == Ok ==> Emitted(Cancel(c, job).0, ops) == []
    ensures Emitted(Abort(c), ops) == []
  {
    SilentUntilConfirm(Abort(c), ops);
    if Cancel(c, job).1 == Ok {
      SilentUntilConfirm(Cancel(c, job).0, ops);
    }
  }
}

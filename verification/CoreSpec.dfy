/** The typing core as a state machine on values: one job at a time, a replay ledger, a lifetime
    on a wrapping 32-bit clock, and a job region that is all zero whenever no job is held. */
module CoreSpec {
  import opened Bytes
  import opened Keymap
  import opened Compiler

  const MAX_INPUT: nat := 1024
  const MAX_STROKES: nat := 2048
  const MAX_TTL: nat := 15000
  const LEDGER_CAPACITY: nat := 64

  datatype State = Empty | Staged | Executing | Completed | Cancelled | Expired | Rejected

  /** One remembered job. */
  datatype Entry = Entry(owner: nat, id: nat)

  const NO_POLICY := Policy(0, 0, 0)

  datatype Core = Core(
    ledger: seq<Entry>, state: State, job: Entry, stagedAt: nat, ttl: nat, policy: Policy,
    count: nat, cursor: nat, strokes: seq<Stroke>)
  {
    predicate Busy() {
      state == Staged || state == Executing
    }
  }

  function Zeros(n: nat): (s: seq<Stroke>)
    ensures |s| == n && forall i | 0 <= i < n :: s[i] == NO_STROKE
  {
    seq(n, i => NO_STROKE)
  }

  /** A stage request; `text` is absent for a null pointer, and `length` is the caller's claim. */
  datatype Request = Request(
    job: Entry, policy: Policy, text: Option<seq<Byte>>, length: nat, now: nat, ttl: nat)
  {
    /** What the core needs of its caller: the bytes it will read exist. */
    predicate Readable() {
      text.Some? && length <= MAX_INPUT ==> length <= |text.value|
    }
  }

  /** `bridge_core_init`. */
  function Initial(): Core {
    Core([], Empty, Entry(0, 0), 0, 0, NO_POLICY, 0, 0, Zeros(MAX_STROKES))
  }

  /** The job region wiped, the ledger kept. */
  function Terminated(c: Core, state: State): Core {
    Initial().(ledger := c.ledger, state := state)
  }

  /** The verdict on a request's fields, before any text is looked at. */
  function Preflight(ledger: seq<Entry>, r: Request): Status {
    if r.length == 0 || r.length > MAX_INPUT then ErrLimit
    else if r.text.None? || r.job.owner == 0 || r.job.id == 0
      || (r.policy.layout != LAYOUT_US && r.policy.layout != LAYOUT_DE)
      || (r.policy.mode != MODE_PASSWORD && r.policy.mode != MODE_TEXT)
      || r.ttl == 0 || r.ttl > MAX_TTL then ErrArgument
    else if r.policy.flags >= 4 || (r.policy.mode == MODE_PASSWORD && r.policy.flags != 0) then ErrPolicy
    else if r.job in ledger then ErrReplay
    else if |ledger| == LEDGER_CAPACITY then ErrLimit
    else Ok
  }

  function Verdict(ledger: seq<Entry>, r: Request): Compiled
    requires r.Readable()
  {
    var status := Preflight(ledger, r);
    if status != Ok then Reject(status) else Compile(r.text.value[..r.length], r.policy)
  }

  /** `bridge_core_stage`. */
  function Stage(c: Core, r: Request): (Core, Status)
    requires r.Readable()
  {
    if c.Busy() then (c, ErrBusy)
    else
      match Verdict(c.ledger, r)
      case Reject(status) => (Terminated(c, Rejected), status)
      case Strokes(s) =>
        (Core(c.ledger + [r.job], Staged, r.job, r.now, r.ttl, r.policy, |s|, 0,
              s + Zeros(if |s| <= MAX_STROKES then MAX_STROKES - |s| else 0)), Ok)
  }

  /** `bridge_core_abort`. */
  function Abort(c: Core): Core {
    Terminated(c, Cancelled)
  }

  /** `bridge_core_cancel`. */
  function Cancel(c: Core, job: Entry): (Core, Status) {
    if !c.Busy() then (c, ErrState)
    else if job.owner != c.job.owner then (c, ErrOwner)
    else if job.id != c.job.id then (c, ErrId)
    else (Terminated(c, Cancelled), Ok)
  }

  /** `bridge_core_tick`; the age of a job is a difference of 32-bit clock readings. */
  function Tick(c: Core, now: nat): (Core, Status) {
    if c.state == Staged && (now - c.stagedAt) % TWO_32 >= c.ttl then (Terminated(c, Expired), ErrExpired)
    else (c, Ok)
  }

  /** `bridge_core_confirm`. */
  function Confirm(c: Core, job: Entry, now: nat): (Core, Status) {
    if c.state != Staged then (c, ErrState)
    else if job.owner != c.job.owner then (c, ErrOwner)
    else if job.id != c.job.id then (c, ErrId)
    else if Tick(c, now).1 == ErrExpired then Tick(c, now)
    else (c.(state := Executing), Ok)
  }

  /** `bridge_core_next`. */
  function Next(c: Core, now: nat): (Core, Status, Stroke) {
    if Tick(c, now).1 == ErrExpired then (Tick(c, now).0, ErrExpired, NO_STROKE)
    else if c.state != Executing then (c, ErrState, NO_STROKE)
    else if c.cursor >= |c.strokes| || c.cursor == c.count then (Terminated(c, Completed), Done, NO_STROKE)
    else (c.(strokes := c.strokes[c.cursor := NO_STROKE], cursor := c.cursor + 1), Ok, c.strokes[c.cursor])
  }
}

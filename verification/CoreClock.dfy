/** The lifetime of a staged job measured in true time. The device clock is true time modulo
    2^32 ms; a controller may also supply a tick of its own choosing. */
module CoreClock {
  import opened Bytes
  import opened Keymap
  import opened Utf8
  import opened Compiler
  import opened CoreSpec
  import opened CoreRuns

  /** Calls stamped with the device clock carry their true time; `RemoteTick` carries whatever
      the controller wrote into the packet. */
  datatype Event =
    | StageAt(r: Request, t: nat)
    | ConfirmAt(job: Entry, t: nat)
    | NextAt(t: nat)
    | TickAt(t: nat)
    | RemoteTick(now: nat)
    | CancelEvent(job: Entry)
    | AbortEvent

  function Clock(t: nat): nat {
    t % TWO_32
  }

  function OpOf(e: Event): Op {
    match e
    case StageAt(r, t) => StageOp(r.(now := Clock(t)))
    case ConfirmAt(job, t) => ConfirmOp(job, Clock(t))
    case NextAt(t) => NextOp(Clock(t))
    case TickAt(t) => TickOp(Clock(t))
    case RemoteTick(now) => TickOp(now)
    case CancelEvent(job) => CancelOp(job)
    case AbortEvent => AbortOp
  }

  /** The core, the true time its job was staged, and the true time expiry was last checked. */
  datatype Timeline = Timeline(core: Core, staged: nat, checked: nat)

  function Play(tl: Timeline, e: Event): Timeline
    requires Legal(OpOf(e))
  {
    var (core, status, _) := Apply(tl.core, OpOf(e));
    if e.StageAt? && status == Ok then Timeline(core, e.t, e.t)
    else if e.NextAt? || e.TickAt? then tl.(core := core, checked := e.t)
    else tl.(core := core)
  }

  /** While a job is staged, time does not run backwards and no call comes later than
      2^32 - 15000 ms after the last check; the main loop checks on every pass. */
  predicate Paced(tl: Timeline, e: Event) {
    tl.core.state == Staged && (e.ConfirmAt? || e.NextAt? || e.TickAt?) ==>
      tl.checked <= e.t < tl.checked + TWO_32 - MAX_TTL
  }

  ghost predicate Fresh(tl: Timeline) {
    tl.core.state == Staged ==>
      && tl.core.stagedAt == Clock(tl.staged)
      && tl.staged <= tl.checked < tl.staged + tl.core.ttl
      && tl.core.ttl <= MAX_TTL
  }

  lemma ClockDifference(a: nat, b: nat)
    requires a <= b
    ensures (Clock(b) - Clock(a)) % TWO_32 == (b - a) % TWO_32
  {
    var x, y := a / TWO_32, b / TWO_32;
    assert a == x * TWO_32 + Clock(a) && b == y * TWO_32 + Clock(b);
    ModShift(Clock(b) - Clock(a), y - x);
  }

  lemma ModShift(r: int, k: int)
    ensures (r + k * TWO_32) % TWO_32 == r % TWO_32
  {
    assert (r + k * TWO_32) % TWO_32 == r % TWO_32 by {
      var q, m := r / TWO_32, r % TWO_32;
      assert r + k * TWO_32 == (q + k) * TWO_32 + m;
    }
  }

  /** The exact reading of the device's check: a staged job passes it just when its true age,
      reduced modulo 2^32, is below the lifetime. */
  lemma CheckExact(tl: Timeline, t: nat)
    requires tl.core.state == Staged && tl.core.stagedAt == Clock(tl.staged) && tl.staged <= t
    ensures Tick(tl.core, Clock(t)).1 == Ok <==> (t - tl.staged) % TWO_32 < tl.core.ttl
  {
    ClockDifference(tl.staged, t);
  }

  /** In paced time the wrap-around does not matter: the check compares the true age. */
  lemma CheckInPacedTime(tl: Timeline, t: nat)
    requires Fresh(tl) && tl.core.state == Staged
    requires tl.checked <= t < tl.checked + TWO_32 - MAX_TTL
    ensures Tick(tl.core, Clock(t)).1 == Ok <==> t - tl.staged < tl.core.ttl
  {
    CheckExact(tl, t);
    assert t - tl.staged < TWO_32;
  }

  lemma StageSetsLifetime(c: Core, r: Request)
    requires r.Readable() && Stage(c, r).1 == Ok
    ensures var c' := Stage(c, r).0; c'.state == Staged && c'.stagedAt == r.now && c'.ttl == r.ttl && 0 < r.ttl <= MAX_TTL
  {
    StagedJob(c, r);
  }

  lemma PlayKeepsFresh(tl: Timeline, e: Event)
    requires Fresh(tl) && Legal(OpOf(e)) && Paced(tl, e)
    ensures Fresh(Play(tl, e))
  {
    match e
    case StageAt(r, t) =>
      if Stage(tl.core, r.(now := Clock(t))).1 == Ok {
        StageSetsLifetime(tl.core, r.(now := Clock(t)));
      }
    case NextAt(t) =>
      if tl.core.state == Staged {
        CheckInPacedTime(tl, t);
      }
    case TickAt(t) =>
      if tl.core.state == Staged {
        CheckInPacedTime(tl, t);
      }
    case ConfirmAt(job, t) =>
    case RemoteTick(now) =>
    case CancelEvent(job) =>
    case AbortEvent =>
  }

  ghost predicate AllPaced(tl: Timeline, events: seq<Event>)
    decreases |events|
  {
    events == [] ||
    (Legal(OpOf(events[0])) && Paced(tl, events[0]) && AllPaced(Play(tl, events[0]), events[1..]))
  }

  function PlayAll(tl: Timeline, events: seq<Event>): Timeline
    requires AllPaced(tl, events)
    decreases |events|
  {
    if events == [] then tl else PlayAll(Play(tl, events[0]), events[1..])
  }

  lemma {:induction false} PlayAllKeepsFresh(tl: Timeline, events: seq<Event>)
    requires Fresh(tl) && AllPaced(tl, events)
    ensures Fresh(PlayAll(tl, events))
    decreases |events|
  {
    if events != [] {
      PlayKeepsFresh(tl, events[0]);
      PlayAllKeepsFresh(Play(tl, events[0]), events[1..]);
    }
  }

  /** Lifetime across clock wrap: after every paced run from initialisation, controller ticks
      included, a confirm that names the staged job succeeds exactly when the job's true age is
      below its lifetime, which is at most 15 s. */
  lemma ConfirmInTime(events: seq<Event>, job: Entry, t: nat)
    requires AllPaced(Timeline(Initial(), 0, 0), events)
    requires var tl := PlayAll(Timeline(Initial(), 0, 0), events);
             tl.core.state == Staged && job == tl.core.job && Paced(tl, ConfirmAt(job, t))
    ensures var tl := PlayAll(Timeline(Initial(), 0, 0), events);
            && (Confirm(tl.core, job, Clock(t)).1 == Ok <==> t - tl.staged < tl.core.ttl)
            && tl.core.ttl <= 15000
  {
    PlayAllKeepsFresh(Timeline(Initial(), 0, 0), events);
    CheckInPacedTime(PlayAll(Timeline(Initial(), 0, 0), events), t);
  }

  /** The exact condition for the check to be right at any later time, paced or not: the true age is
      below a full turn of the clock, or its residue is past the lifetime anyway. */
  lemma CheckRightIff(tl: Timeline, t: nat)
    requires tl.core.state == Staged && tl.core.stagedAt == Clock(tl.staged) && tl.staged <= t
    requires tl.core.ttl <= MAX_TTL
    ensures var age := t - tl.staged;
            (Tick(tl.core, Clock(t)).1 == Ok <==> age < tl.core.ttl) <==> age < TWO_32 || age % TWO_32 >= tl.core.ttl
  {
    CheckExact(tl, t);
  }

  /** Without pacing the claim does fail: after initialisation, any job that is staged and then left
      alone for one full turn of the clock is still confirmed, although its true age is 2^32 ms. */
  lemma FullTurnDefeatsLifetime(r: Request, t: nat)
    requires var e := StageAt(r, t); Legal(OpOf(e)) && Stage(Initial(), OpOf(e).r).1 == Ok
    ensures var tl := Play(Timeline(Initial(), 0, 0), StageAt(r, t)); var later := t + TWO_32;
            && tl.staged == t && later - t >= 15000 >= tl.core.ttl
            && Confirm(tl.core, r.job, Clock(later)).1 == Ok
  {
    hide Compile, Preflight, Zeros;
    var tl := Play(Timeline(Initial(), 0, 0), StageAt(r, t));
    StageSetsLifetime(Initial(), r.(now := Clock(t)));
    StagedJob(Initial(), r.(now := Clock(t)));
    CheckExact(tl, t + TWO_32);
  }

  /** There is such a job: the letter a. */
  lemma FullTurnPossible() returns (r: Request)
    ensures Legal(OpOf(StageAt(r, 0))) && Stage(Initial(), OpOf(StageAt(r, 0)).r).1 == Ok
  {
    var p := Policy(LAYOUT_US, MODE_PASSWORD, 0);
    r := Request(Entry(1, 1), p, Some([97]), 1, 0, 15000);
    OneLetter(p);
    assert Text(r) == [97];
    TextAllowedIsAcceptable(r);
    StageAcceptsExactly(Initial(), r);
  }

  lemma OneLetter(p: Policy)
    requires p == Policy(LAYOUT_US, MODE_PASSWORD, 0)
    ensures Acceptable([97], p)
  {
    var letter: seq<nat> := [97];
    assert letter[1..] == [] && EncodeAll([]) == [];
    assert EncodeAll(letter) == [97];
    DecodeAllComplete(letter);
    assert FoldCrLf(letter) == letter;
  }
}

/** The device's trust state as a whole: flash, the roster in memory, and the one Noise session,
    through power cycles, handshakes and enrolment commands on either transport. */
module Enrolment {
  import opened Bytes
  import opened ControllerStore
  import opened FlashCommit

  /** The two keys compiled into a firmware image. */
  datatype Build = Build(recovery: seq<Byte>, imported: seq<Byte>)

  ghost predicate BuildOk(b: Build) {
    |b.recovery| == KEY_LEN && |b.imported| == KEY_LEN
  }

  /** The session as `noise_ik.c` holds it, with the static key that matched. */
  datatype Session = Closed | Ready(slot: nat, role: Byte, key: seq<Byte>)

  datatype World =
    | Off(flash: Flash)
    | Halted(flash: Flash)
    | Running(flash: Flash, ram: Store, session: Session)

  /** How a commit went and the flash it left: reported success, reported failure, or power lost
      somewhere inside it. */
  datatype Result = Success | Failure | Lost
  datatype Outcome = Outcome(left: Flash, result: Result)

  /** The outcomes that committing `t` over `f` can have. */
  ghost predicate CanEnd(f: Flash, t: Store, o: Outcome) {
    && Sized(f) && Shaped(t)
    && match o.result
       case Success => exists executed :: Commit(f, t, executed) == (o.left, Ok)
       case Failure => exists executed :: Commit(f, t, executed).0 == o.left && Commit(f, t, executed).1 != Ok
       case Lost => CommitMayLeave(f, t, o.left)
  }

  datatype Event =
    | PowerOn(seed: Outcome, importing: Outcome)
    | PowerOff
    | Handshake(key: seq<Byte>, genuine: bool)
    | AddCommand(key: seq<Byte>, role: Byte, o: Outcome)
    | RevokeCommand(target: nat, o: Outcome)

  // ---- Start-up ----

  const BLANK := Flash(Erased(SECTOR), Erased(SECTOR))

  predicate Blank(f: Flash) {
    f == BLANK
  }

  /** `controller_setup` imports only into generation 1 with every daily slot empty. */
  predicate ImportDue(s: Store)
    requires |s.slots| == SLOTS
  {
    s.generation == 1 && forall i | 1 <= i < SLOTS :: s.slots[i].role == NONE
  }

  /** Where a start-up commit of `t` leads. */
  function StartWith(t: Store, o: Outcome): World {
    match o.result
    case Success => Running(o.left, t, Closed)
    case Failure => Halted(o.left)
    case Lost => Off(o.left)
  }

  /** `controller_store_flash_boot_or_seed`: load the store, or seed two blank sectors. */
  function BootOrSeed(b: Build, f: Flash, o: Outcome): World {
    match Boot(f)
    case Some(s) => Running(f, s, Closed)
    case None =>
      if !Blank(f) || Initialise(b.recovery).None? then Halted(f)
      else StartWith(Initialise(b.recovery).value, o)
  }

  /** The first-boot import of `controller_setup`, after the store has been loaded. */
  function Import(b: Build, w: World, o: Outcome): World
    requires w.Running? ==> |w.ram.slots| == SLOTS
  {
    if !w.Running? || !ImportDue(w.ram) then w
    else
      var (t, added) := Add(w.ram, 0, b.imported, ADMIN);
      if added != Ok then Halted(w.flash) else StartWith(t, o)
  }

  // ---- Commands ----

  /** The slot that enrolment commands act for: `noise_authenticated_slot`. */
  function Caller(session: Session): nat {
    if session.Ready? then session.slot else SLOTS
  }

  /** Where a command's commit of `t` leads; the roster in memory follows only a reported success. */
  function CommandCommits(w: World, t: Store, o: Outcome): World
    requires w.Running?
  {
    match o.result
    case Success => Running(o.left, t, w.session)
    case Failure => w.(flash := o.left)
    case Lost => Off(o.left)
  }

  /** The store `ble_handle_controller_add` tries to commit, if it gets that far. */
  function AddCandidate(w: World, key: seq<Byte>, role: Byte): Option<Store>
    requires w.Running? && |w.ram.slots| == SLOTS
  {
    if !IsAdmin(w.ram, Caller(w.session)) || (role != OPERATOR && role != ADMIN) then None
    else
      var (t, status) := Add(w.ram, Caller(w.session), key, role);
      if status == Ok then Some(t) else None
  }

  /** The same for `ble_handle_controller_revoke`; a session cannot revoke its own slot. */
  function RevokeCandidate(w: World, target: nat): (t: Option<Store>)
    requires w.Running? && |w.ram.slots| == SLOTS
    ensures t.Some? ==> target < SLOTS
  {
    if !IsAdmin(w.ram, Caller(w.session)) || target == Caller(w.session) then None
    else
      var (t, status) := Revoke(w.ram, Caller(w.session), target);
      if status == Ok then Some(t) else None
  }

  function Land(w: World, candidate: Option<Store>, o: Outcome): World
    requires w.Running?
  {
    if candidate.None? then w else CommandCommits(w, candidate.value, o)
  }

  /** `noise_ik_handshake_respond` as far as enrolment goes: the old session is gone; a genuine
      initiator whose static key is enrolled gets the first slot holding it. */
  function HandleHandshake(w: World, key: seq<Byte>, genuine: bool): World
    requires w.Running?
  {
    match FindFrom(w.ram.slots, key, 0)
    case Some(i) => w.(session := if genuine then Ready(i, w.ram.slots[i].role, key) else Closed)
    case None => w.(session := Closed)
  }

  // ---- The invariant ----

  /** Memory equals what a reboot would load; the session's slot still holds the key and role that
      matched at its handshake. */
  ghost predicate Holds(w: World) {
    && Sized(w.flash)
    && (w.Running? ==>
          && Boot(w.flash) == Some(w.ram)
          && (w.session.Ready? ==>
                && w.session.slot < SLOTS && w.session.role != NONE
                && w.ram.slots[w.session.slot] == Slot(w.session.role, w.session.key)))
  }

  /** Slot 0 of whatever the flash boots to is `anchor`; a flash that does not boot can only ever
      be seeded with it. */
  ghost predicate Anchored(b: Build, f: Flash, anchor: Slot) {
    match Boot(f)
    case Some(s) => s.slots[0] == anchor
    case None => anchor == Slot(RECOVERY, b.recovery)
  }

  function Step(b: Build, w: World, e: Event): World
    requires Holds(w)
  {
    match e
    case PowerOff => Off(w.flash)
    case PowerOn(seed, importing) =>
      if w.Off? then Import(b, BootOrSeed(b, w.flash, seed), importing) else w
    case Handshake(key, genuine) => if w.Running? then HandleHandshake(w, key, genuine) else w
    case AddCommand(key, role, o) => if w.Running? then Land(w, AddCandidate(w, key, role), o) else w
    case RevokeCommand(target, o) => if w.Running? then Land(w, RevokeCandidate(w, target), o) else w
  }

  /** The outcomes named by an event are ones its commits can have. */
  ghost predicate Possible(b: Build, w: World, e: Event)
    requires Holds(w)
  {
    match e
    case PowerOff => true
    case Handshake(_, _) => true
    case PowerOn(seed, importing) =>
      w.Off? ==>
        && (Boot(w.flash).None? && Blank(w.flash) && Initialise(b.recovery).Some? ==>
              CanEnd(w.flash, Initialise(b.recovery).value, seed))
        && var loaded := BootOrSeed(b, w.flash, seed);
           loaded.Running? && ImportDue(loaded.ram) && Add(loaded.ram, 0, b.imported, ADMIN).1 == Ok ==>
             CanEnd(loaded.flash, Add(loaded.ram, 0, b.imported, ADMIN).0, importing)
    case AddCommand(key, role, o) =>
      w.Running? && AddCandidate(w, key, role).Some? ==>
        |key| == KEY_LEN && CanEnd(w.flash, AddCandidate(w, key, role).value, o)
    case RevokeCommand(target, o) =>
      w.Running? && RevokeCandidate(w, target).Some? ==> CanEnd(w.flash, RevokeCandidate(w, target).value, o)
  }

  // ---- Preservation ----

  /** What any commit over a booting flash leaves. */
  lemma CommitEnds(f: Flash, t: Store, o: Outcome)
    requires Boot(f).Some? && CanEnd(f, t, o)
    ensures Sized(o.left)
    ensures o.result == Success ==> Boot(o.left) == Some(t) && t.generation > Boot(f).value.generation
    ensures o.result == Failure ==> Boot(o.left) == Boot(f)
    ensures Boot(o.left) == Boot(f) || (Boot(o.left) == Some(t) && t.generation > Boot(f).value.generation)
  {
    match o.result
    case Success =>
      var executed :| Commit(f, t, executed) == (o.left, Ok);
      CommitOutcome(f, t, executed);
    case Failure =>
      var executed :| Commit(f, t, executed).0 == o.left && Commit(f, t, executed).1 != Ok;
      CommitOutcome(f, t, executed);
    case Lost => OldOrNew(f, t, o.left);
  }

  /** What seeding a flash that does not boot leaves. */
  lemma SeedEnds(f: Flash, t: Store, o: Outcome)
    requires Boot(f).None? && CanEnd(f, t, o)
    ensures Sized(o.left)
    ensures o.result == Success ==> Boot(o.left) == Some(t)
    ensures Boot(o.left).None? || Boot(o.left) == Some(t)
  {
    match o.result
    case Success =>
      var executed :| Commit(f, t, executed) == (o.left, Ok);
      SeedOutcome(f, t, executed);
    case Failure =>
      var executed :| Commit(f, t, executed).0 == o.left && Commit(f, t, executed).1 != Ok;
      SeedOutcome(f, t, executed);
    case Lost => SeedAllOrNothing(f, t, o.left);
  }

  /** A command's candidate differs from the roster only in one slot, which is neither slot 0 nor
      the session's own. */
  lemma CandidateSpares(w: World, t: Store)
    requires Holds(w) && w.Running?
    requires (exists key, role :: |key| == KEY_LEN && AddCandidate(w, key, role) == Some(t)) ||
             (exists target :: RevokeCandidate(w, target) == Some(t))
    ensures t.slots[0] == w.ram.slots[0]
    ensures w.session.Ready? ==> t.slots[w.session.slot] == w.ram.slots[w.session.slot]
    ensures t.generation == Bump(w.ram.generation)
  {
  }

  lemma CommandKeeps(b: Build, w: World, t: Store, o: Outcome, anchor: Slot)
    requires Holds(w) && w.Running? && Anchored(b, w.flash, anchor) && CanEnd(w.flash, t, o)
    requires t.slots[0] == w.ram.slots[0]
    requires w.session.Ready? ==> t.slots[w.session.slot] == w.ram.slots[w.session.slot]
    ensures Holds(CommandCommits(w, t, o)) && Anchored(b, CommandCommits(w, t, o).flash, anchor)
  {
    hide Boot, Commit;
    CommitEnds(w.flash, t, o);
  }

  lemma SeedKeeps(b: Build, w: World, seed: Outcome, anchor: Slot)
    requires BuildOk(b) && Holds(w) && w.Off? && Anchored(b, w.flash, anchor)
    requires Boot(w.flash).None? && Blank(w.flash) && Initialise(b.recovery).Some? ==>
               CanEnd(w.flash, Initialise(b.recovery).value, seed)
    ensures var l := BootOrSeed(b, w.flash, seed);
            Holds(l) && Anchored(b, l.flash, anchor) && (l.Running? ==> l.session == Closed)
  {
    if Boot(w.flash).None? && Blank(w.flash) && Initialise(b.recovery).Some? {
      SeedEnds(w.flash, Initialise(b.recovery).value, seed);
    }
  }

  lemma ImportKeeps(b: Build, w: World, o: Outcome, anchor: Slot)
    requires BuildOk(b) && Holds(w) && Anchored(b, w.flash, anchor) && (w.Running? ==> w.session == Closed)
    requires w.Running? && ImportDue(w.ram) && Add(w.ram, 0, b.imported, ADMIN).1 == Ok ==>
               CanEnd(w.flash, Add(w.ram, 0, b.imported, ADMIN).0, o)
    ensures Holds(Import(b, w, o)) && Anchored(b, Import(b, w, o).flash, anchor)
  {
    hide Boot, Commit;
    if w.Running? && ImportDue(w.ram) && Add(w.ram, 0, b.imported, ADMIN).1 == Ok {
      CommitEnds(w.flash, Add(w.ram, 0, b.imported, ADMIN).0, o);
    }
  }

  lemma StepKeeps(b: Build, w: World, e: Event, anchor: Slot)
    requires BuildOk(b) && Holds(w) && Anchored(b, w.flash, anchor) && Possible(b, w, e)
    ensures Holds(Step(b, w, e)) && Anchored(b, Step(b, w, e).flash, anchor)
  {
    hide Boot, Commit;
    match e
    case PowerOn(seed, importing) =>
      if w.Off? {
        SeedKeeps(b, w, seed, anchor);
        ImportKeeps(b, BootOrSeed(b, w.flash, seed), importing, anchor);
      }
    case AddCommand(key, role, o) =>
      if w.Running? && AddCandidate(w, key, role).Some? {
        CandidateSpares(w, AddCandidate(w, key, role).value);
        CommandKeeps(b, w, AddCandidate(w, key, role).value, o, anchor);
      }
    case RevokeCommand(target, o) =>
      if w.Running? && RevokeCandidate(w, target).Some? {
        CandidateSpares(w, RevokeCandidate(w, target).value);
        CommandKeeps(b, w, RevokeCandidate(w, target).value, o, anchor);
      }
    case PowerOff =>
    case Handshake(key, genuine) =>
  }

  // ---- Whole runs ----

  ghost predicate AllPossible(b: Build, w: World, events: seq<Event>, anchor: Slot)
    requires BuildOk(b) && Holds(w) && Anchored(b, w.flash, anchor)
    decreases |events|
  {
    events == [] ||
    (Possible(b, w, events[0]) &&
     (StepKeeps(b, w, events[0], anchor);
      AllPossible(b, Step(b, w, events[0]), events[1..], anchor)))
  }

  ghost function Run(b: Build, w: World, events: seq<Event>, anchor: Slot): World
    requires BuildOk(b) && Holds(w) && Anchored(b, w.flash, anchor) && AllPossible(b, w, events, anchor)
    decreases |events|
  {
    if events == [] then w
    else
      StepKeeps(b, w, events[0], anchor);
      Run(b, Step(b, w, events[0]), events[1..], anchor)
  }

  /** In every state a device can reach from power-off, through any power cuts, handshakes and
      enrolment commands: memory equals what a reboot would load, a ready session's slot still
      holds the key and role that matched at its handshake, and slot 0 never changes. */
  lemma {:induction false} EveryReachableState(b: Build, w: World, events: seq<Event>, anchor: Slot)
    requires BuildOk(b) && Holds(w) && Anchored(b, w.flash, anchor) && AllPossible(b, w, events, anchor)
    ensures Holds(Run(b, w, events, anchor)) && Anchored(b, Run(b, w, events, anchor).flash, anchor)
    decreases |events|
  {
    if events != [] {
      StepKeeps(b, w, events[0], anchor);
      EveryReachableState(b, Step(b, w, events[0]), events[1..], anchor);
    }
  }

  // ---- The first boot ----

  lemma BlankDoesNotBoot()
    ensures Sized(BLANK) && Blank(BLANK) && Boot(BLANK) == None
  {
    MarkErasedIsNoRecord(Erased(SECTOR));
  }

  function FirstRoster(b: Build): Store {
    Store(2, [Slot(RECOVERY, b.recovery), Slot(ADMIN, b.imported), EMPTY_SLOT, EMPTY_SLOT, EMPTY_SLOT])
  }

  lemma ImportIntoSeed(b: Build)
    requires BuildOk(b) && b.recovery != ZERO_KEY && b.imported != ZERO_KEY && b.imported != b.recovery
    ensures Initialise(b.recovery).Some? && Good(Initialise(b.recovery).value) && ImportDue(Initialise(b.recovery).value)
    ensures Add(Initialise(b.recovery).value, 0, b.imported, ADMIN) == (FirstRoster(b), Ok) && Good(FirstRoster(b))
  {
    var s := Initialise(b.recovery).value;
    InitialiseGood(b.recovery);
    assert FindFrom(s.slots, b.imported, 0).None?;
    assert FreeFrom(s.slots, 1) == Some(1);
    AddKeepsRules(s, 0, b.imported, ADMIN);
    assert s.slots[1 := Slot(ADMIN, b.imported)] == FirstRoster(b).slots;
  }

  /** A new device whose first boot is not cut short, however its commits went about succeeding, comes
      up with the recovery administrator in slot 0 and the imported administrator in slot 1, both
      durable. */
  lemma FirstBoot(b: Build, e: Event)
    requires BuildOk(b) && b.recovery != ZERO_KEY && b.imported != ZERO_KEY && b.imported != b.recovery
    requires Holds(Off(BLANK)) && Possible(b, Off(BLANK), e)
    requires e.PowerOn? && e.seed.result == Success && e.importing.result == Success
    ensures Step(b, Off(BLANK), e) == Running(e.importing.left, FirstRoster(b), Closed)
    ensures Boot(e.importing.left) == Some(FirstRoster(b))
  {
    hide Boot, Commit, Initialise, Add, ImportDue;
    BlankDoesNotBoot();
    ImportIntoSeed(b);
    var s := Initialise(b.recovery).value;
    SeedEnds(BLANK, s, e.seed);
    assert BootOrSeed(b, BLANK, e.seed) == Running(e.seed.left, s, Closed);
    CommitEnds(e.seed.left, FirstRoster(b), e.importing);
  }

  /** Such a boot is possible. */
  lemma FirstBootPossible(b: Build) returns (e: Event)
    requires BuildOk(b) && b.recovery != ZERO_KEY && b.imported != ZERO_KEY && b.imported != b.recovery
    ensures Holds(Off(BLANK)) && Possible(b, Off(BLANK), e)
    ensures e.PowerOn? && e.seed.result == Success && e.importing.result == Success
  {
    hide Boot, Commit, Initialise, Add, ImportDue;
    BlankDoesNotBoot();
    ImportIntoSeed(b);
    var s, t := Initialise(b.recovery).value, FirstRoster(b);
    var f1 := Commit(BLANK, s, true).0;
    SeedOutcome(BLANK, s, true);
    var f2 := Commit(f1, t, true).0;
    CommitOutcome(f1, t, true);
    assert Commit(BLANK, s, true) == (f1, Ok) && Commit(f1, t, true) == (f2, Ok);
    e := PowerOn(Outcome(f1, Success), Outcome(f2, Success));
    assert BootOrSeed(b, BLANK, e.seed) == Running(f1, s, Closed);
  }

  // ---- Generations ----

  /** The generation a reboot would load; a flash that does not boot counts as -1. */
  function Durable(f: Flash): int {
    match Boot(f)
    case Some(s) => s.generation
    case None => -1
  }

  /** Whether this event's import changed what a reboot would load. */
  ghost predicate ImportTook(b: Build, w: World, e: Event)
    requires Holds(w)
  {
    e.PowerOn? && w.Off? &&
    var loaded := BootOrSeed(b, w.flash, e.seed);
    loaded.Running? && Boot(Import(b, loaded, e.importing).flash) != Boot(loaded.flash)
  }

  lemma PowerOnGrows(b: Build, w: World, e: Event, anchor: Slot)
    requires BuildOk(b) && Holds(w) && Anchored(b, w.flash, anchor) && Possible(b, w, e)
    requires e.PowerOn? && w.Off?
    ensures Durable(Step(b, w, e).flash) >= Durable(w.flash)
    ensures ImportTook(b, w, e) ==> Durable(w.flash) <= 1 && Durable(Step(b, w, e).flash) >= 2
  {
    SeedKeeps(b, w, e.seed, anchor);
    var loaded := BootOrSeed(b, w.flash, e.seed);
    if loaded.Running? && ImportDue(loaded.ram) && Add(loaded.ram, 0, b.imported, ADMIN).1 == Ok {
      CommitEnds(loaded.flash, Add(loaded.ram, 0, b.imported, ADMIN).0, e.importing);
    }
  }

  /** The durable generation never decreases, and an import moves it past 1. */
  lemma StepGrows(b: Build, w: World, e: Event, anchor: Slot)
    requires BuildOk(b) && Holds(w) && Anchored(b, w.flash, anchor) && Possible(b, w, e)
    ensures Durable(Step(b, w, e).flash) >= Durable(w.flash)
    ensures ImportTook(b, w, e) ==> Durable(w.flash) <= 1 && Durable(Step(b, w, e).flash) >= 2
  {
    hide Boot, Commit;
    match e
    case PowerOn(seed, importing) =>
      if w.Off? {
        PowerOnGrows(b, w, e, anchor);
      }
    case AddCommand(key, role, o) =>
      if w.Running? && AddCandidate(w, key, role).Some? {
        CommitEnds(w.flash, AddCandidate(w, key, role).value, o);
      }
    case RevokeCommand(target, o) =>
      if w.Running? && RevokeCandidate(w, target).Some? {
        CommitEnds(w.flash, RevokeCandidate(w, target).value, o);
      }
    case PowerOff =>
    case Handshake(key, genuine) =>
  }

  function Listed(candidate: Option<Store>): seq<Store> {
    match candidate
    case None => []
    case Some(t) => [t]
  }

  /** The stores an event tries to commit. */
  function Attempts(b: Build, w: World, e: Event): seq<Store>
    requires Holds(w)
  {
    match e
    case PowerOff => []
    case Handshake(_, _) => []
    case PowerOn(seed, _) =>
      if !w.Off? then []
      else
        var loaded := BootOrSeed(b, w.flash, seed);
        (if Boot(w.flash).None? && Blank(w.flash) then Listed(Initialise(b.recovery)) else [])
        + (if loaded.Running? && |loaded.ram.slots| == SLOTS && ImportDue(loaded.ram)
           then [Add(loaded.ram, 0, b.imported, ADMIN).0] else [])
    case AddCommand(key, role, _) => if w.Running? then Listed(AddCandidate(w, key, role)) else []
    case RevokeCommand(target, _) => if w.Running? then Listed(RevokeCandidate(w, target)) else []
  }

  /** From `f` to `g` either nothing changed for a reboot, or one of `tried` came in, with a larger
      generation. */
  ghost predicate Succeeds(f: Flash, g: Flash, tried: seq<Store>) {
    Boot(g) == Boot(f) || (Boot(g).Some? && Boot(g).value in tried && Durable(g) > Durable(f))
  }

  lemma SucceedsTwice(f: Flash, g: Flash, h: Flash, x: seq<Store>, y: seq<Store>)
    requires Succeeds(f, g, x) && Succeeds(g, h, y)
    ensures Succeeds(f, h, x + y)
  {
    hide Boot;
  }

  lemma PowerOnBoots(b: Build, w: World, e: Event, anchor: Slot)
    requires BuildOk(b) && Holds(w) && Anchored(b, w.flash, anchor) && Possible(b, w, e)
    requires e.PowerOn? && w.Off?
    ensures Succeeds(w.flash, Step(b, w, e).flash, Attempts(b, w, e))
  {
    hide Boot, Commit, Initialise, Add, ImportDue;
    SeedKeeps(b, w, e.seed, anchor);
    var loaded := BootOrSeed(b, w.flash, e.seed);
    var seeded := if Boot(w.flash).None? && Blank(w.flash) then Listed(Initialise(b.recovery)) else [];
    var imported := if loaded.Running? && ImportDue(loaded.ram) then [Add(loaded.ram, 0, b.imported, ADMIN).0] else [];
    if Boot(w.flash).None? && Blank(w.flash) && Initialise(b.recovery).Some? {
      SeedEnds(w.flash, Initialise(b.recovery).value, e.seed);
    }
    assert Succeeds(w.flash, loaded.flash, seeded);
    if loaded.Running? && ImportDue(loaded.ram) && Add(loaded.ram, 0, b.imported, ADMIN).1 == Ok {
      CommitEnds(loaded.flash, Add(loaded.ram, 0, b.imported, ADMIN).0, e.importing);
    }
    SucceedsTwice(w.flash, loaded.flash, Import(b, loaded, e.importing).flash, seeded, imported);
  }

  lemma StepBoots(b: Build, w: World, e: Event, anchor: Slot)
    requires BuildOk(b) && Holds(w) && Anchored(b, w.flash, anchor) && Possible(b, w, e)
    ensures Succeeds(w.flash, Step(b, w, e).flash, Attempts(b, w, e))
  {
    hide Boot, Commit, AddCandidate, RevokeCandidate;
    match e
    case PowerOn(seed, importing) =>
      if w.Off? {
        PowerOnBoots(b, w, e, anchor);
      }
    case AddCommand(key, role, o) =>
      if w.Running? && AddCandidate(w, key, role).Some? {
        CommitEnds(w.flash, AddCandidate(w, key, role).value, o);
      }
    case RevokeCommand(target, o) =>
      if w.Running? && RevokeCandidate(w, target).Some? {
        CommitEnds(w.flash, RevokeCandidate(w, target).value, o);
      }
    case PowerOff =>
    case Handshake(key, genuine) =>
  }

  ghost function AllAttempts(b: Build, w: World, events: seq<Event>, anchor: Slot): seq<Store>
    requires BuildOk(b) && Holds(w) && Anchored(b, w.flash, anchor) && AllPossible(b, w, events, anchor)
    decreases |events|
  {
    if events == [] then []
    else
      StepKeeps(b, w, events[0], anchor);
      Attempts(b, w, events[0]) + AllAttempts(b, Step(b, w, events[0]), events[1..], anchor)
  }

  /** Power-loss atomicity over whole runs: through any power cuts and commands, what a reboot would
      load is what it would have loaded at the start, or one of the stores that were tried since, with
      a larger generation. In particular a flash that boots keeps booting. */
  lemma {:induction false} EveryRunBootsOldOrTried(b: Build, w: World, events: seq<Event>, anchor: Slot)
    requires BuildOk(b) && Holds(w) && Anchored(b, w.flash, anchor) && AllPossible(b, w, events, anchor)
    ensures Succeeds(w.flash, Run(b, w, events, anchor).flash, AllAttempts(b, w, events, anchor))
    decreases |events|
  {
    hide Boot, Attempts, Possible, Step;
    if events != [] {
      StepKeeps(b, w, events[0], anchor);
      StepBoots(b, w, events[0], anchor);
      EveryRunBootsOldOrTried(b, Step(b, w, events[0]), events[1..], anchor);
      SucceedsTwice(w.flash, Step(b, w, events[0]).flash, Run(b, w, events, anchor).flash, Attempts(b, w, events[0]),
                    AllAttempts(b, Step(b, w, events[0]), events[1..], anchor));
    }
  }

  ghost function CountImports(b: Build, w: World, events: seq<Event>, anchor: Slot): nat
    requires BuildOk(b) && Holds(w) && Anchored(b, w.flash, anchor) && AllPossible(b, w, events, anchor)
    decreases |events|
  {
    if events == [] then 0
    else
      StepKeeps(b, w, events[0], anchor);
      (if ImportTook(b, w, events[0]) then 1 else 0) + CountImports(b, Step(b, w, events[0]), events[1..], anchor)
  }

  /** The first-boot import takes effect at most once in the life of a device. */
  lemma {:induction false} ImportsAtMostOnce(b: Build, w: World, events: seq<Event>, anchor: Slot)
    requires BuildOk(b) && Holds(w) && Anchored(b, w.flash, anchor) && AllPossible(b, w, events, anchor)
    ensures CountImports(b, w, events, anchor) <= if Durable(w.flash) >= 2 then 0 else 1
    decreases |events|
  {
    if events != [] {
      StepKeeps(b, w, events[0], anchor);
      StepGrows(b, w, events[0], anchor);
      ImportsAtMostOnce(b, Step(b, w, events[0]), events[1..], anchor);
    }
  }

  /** An enrolment command whose commit runs to the end succeeds exactly while the generation has
      not reached 2^32 - 1. */
  lemma CommandSucceedsIff(w: World, t: Store)
    requires Holds(w) && w.Running?
    requires (exists key, role :: |key| == KEY_LEN && AddCandidate(w, key, role) == Some(t)) ||
             (exists target :: RevokeCandidate(w, target) == Some(t))
    ensures Shaped(t) && (Commit(w.flash, t, true).1 == Ok <==> w.ram.generation < TWO_32 - 1)
  {
    CandidateGood(w, t);
    BumpedCommit(w.flash, w.ram, t);
  }

  /** From generation 2^32 - 1 on, no run of events changes what a reboot loads. */
  lemma ExhaustedForever(b: Build, w: World, events: seq<Event>, anchor: Slot)
    requires BuildOk(b) && Holds(w) && Anchored(b, w.flash, anchor) && AllPossible(b, w, events, anchor)
    requires Durable(w.flash) == TWO_32 - 1
    ensures Boot(Run(b, w, events, anchor).flash) == Boot(w.flash)
  {
    EveryRunBootsOldOrTried(b, w, events, anchor);
  }

  function Repeated(x: Byte): (key: seq<Byte>)
    ensures |key| == KEY_LEN && forall i | 0 <= i < KEY_LEN :: key[i] == x
  {
    seq(KEY_LEN, i => x)
  }

  const LAST_ROSTER := Store(TWO_32 - 1, [Slot(RECOVERY, Repeated(1)), EMPTY_SLOT, EMPTY_SLOT, EMPTY_SLOT, EMPTY_SLOT])

  lemma LastRosterGood()
    ensures Good(LAST_ROSTER)
  {
    assert Repeated(1)[0] != ZERO_KEY[0];
  }

  /** There is such a device: the recovery administrator is connected, four slots are free, and yet
      adding a controller fails. */
  lemma ExhaustedExists() returns (w: World, t: Store)
    ensures Holds(w) && w.Running? && w.ram == LAST_ROSTER && IsAdmin(w.ram, Caller(w.session))
    ensures AddCandidate(w, Repeated(2), OPERATOR) == Some(t) && Shaped(t)
    ensures Commit(w.flash, t, true).1 != Ok && Boot(Commit(w.flash, t, true).0) == Boot(w.flash)
  {
    hide Commit, ReadRecord, Image, Good;
    LastRosterGood();
    ImageParts(LAST_ROSTER);
    EncodeThenRead(LAST_ROSTER);
    MarkErasedIsNoRecord(Erased(SECTOR));
    var f := Flash(Image(LAST_ROSTER), Erased(SECTOR));
    w := Running(f, LAST_ROSTER, Ready(0, RECOVERY, Repeated(1)));
    LastCandidate(w);
    t := AddCandidate(w, Repeated(2), OPERATOR).value;
    CandidateGood(w, t);
    CommitOutcome(f, t, true);
  }

  lemma LastCandidate(w: World)
    requires w.Running? && w.ram == LAST_ROSTER && w.session == Ready(0, RECOVERY, Repeated(1))
    ensures AddCandidate(w, Repeated(2), OPERATOR).Some?
  {
    assert Repeated(2)[0] != ZERO_KEY[0] && Repeated(2)[0] != Repeated(1)[0];
    assert FindFrom(LAST_ROSTER.slots, Repeated(2), 0).None?;
    assert FreeFrom(LAST_ROSTER.slots, 1).Some?;
  }

  lemma BumpedCommit(f: Flash, s: Store, t: Store)
    requires Sized(f) && Boot(f) == Some(s) && Good(t) && t.generation == Bump(s.generation)
    ensures Commit(f, t, true).1 == Ok <==> s.generation < TWO_32 - 1
  {
    BumpGrows(s.generation);
    CommitOutcome(f, t, true);
  }

  lemma BumpGrows(g: nat)
    requires g < TWO_32
    ensures Bump(g) > g <==> g < TWO_32 - 1
  {
  }

  lemma CandidateGood(w: World, t: Store)
    requires Holds(w) && w.Running?
    requires (exists key, role :: |key| == KEY_LEN && AddCandidate(w, key, role) == Some(t)) ||
             (exists target :: RevokeCandidate(w, target) == Some(t))
    ensures Good(t) && t.generation == Bump(w.ram.generation)
  {
    if key, role :| |key| == KEY_LEN && AddCandidate(w, key, role) == Some(t) {
      AddKeepsRules(w.ram, Caller(w.session), key, role);
    } else {
      var target :| RevokeCandidate(w, target) == Some(t);
      RevokeKeepsRules(w.ram, Caller(w.session), target);
    }
  }

  // ---- Revocation ----

  /** A reboot would load a roster without the key, too late for another import. */
  ghost predicate Out(f: Flash, key: seq<Byte>) {
    Boot(f).Some? && Boot(f).value.generation >= 2 && FindFrom(Boot(f).value.slots, key, 0) == None
  }

  predicate Adds(e: Event, key: seq<Byte>) {
    e.AddCommand? && e.key == key
  }

  lemma AddLeavesOut(w: World, added: seq<Byte>, role: Byte, key: seq<Byte>)
    requires Holds(w) && w.Running? && |added| == KEY_LEN && added != key && AddCandidate(w, added, role).Some?
    requires FindFrom(w.ram.slots, key, 0) == None
    ensures FindFrom(AddCandidate(w, added, role).value.slots, key, 0) == None
  {
    AddKeepsRules(w.ram, Caller(w.session), added, role);
  }

  lemma RevokeLeavesOut(w: World, target: nat, key: seq<Byte>)
    requires Holds(w) && w.Running? && RevokeCandidate(w, target).Some?
    requires FindFrom(w.ram.slots, key, 0) == None
    ensures FindFrom(RevokeCandidate(w, target).value.slots, key, 0) == None
  {
    RevokeKeepsRules(w.ram, Caller(w.session), target);
    var slots := RevokeCandidate(w, target).value.slots;
    assert forall k | 0 <= k < SLOTS :: slots[k].role == NONE || slots[k] == w.ram.slots[k];
  }

  lemma StepLeavesOut(b: Build, w: World, e: Event, anchor: Slot, key: seq<Byte>)
    requires BuildOk(b) && Holds(w) && Anchored(b, w.flash, anchor) && Possible(b, w, e)
    requires Out(w.flash, key) && !Adds(e, key)
    ensures Out(Step(b, w, e).flash, key)
  {
    hide Boot, Commit, FindFrom, AddCandidate, RevokeCandidate;
    match e
    case PowerOn(seed, importing) =>
    case AddCommand(added, role, o) =>
      if w.Running? && AddCandidate(w, added, role).Some? {
        AddLeavesOut(w, added, role, key);
        CommitEnds(w.flash, AddCandidate(w, added, role).value, o);
      }
    case RevokeCommand(target, o) =>
      if w.Running? && RevokeCandidate(w, target).Some? {
        RevokeLeavesOut(w, target, key);
        CommitEnds(w.flash, RevokeCandidate(w, target).value, o);
      }
    case PowerOff =>
    case Handshake(_, _) =>
  }

  lemma {:induction false} RunLeavesOut(b: Build, w: World, events: seq<Event>, anchor: Slot, key: seq<Byte>)
    requires BuildOk(b) && Holds(w) && Anchored(b, w.flash, anchor) && AllPossible(b, w, events, anchor)
    requires Out(w.flash, key) && forall e <- events :: !Adds(e, key)
    ensures Out(Run(b, w, events, anchor).flash, key)
    decreases |events|
  {
    hide Boot, FindFrom, Possible, Step;
    if events != [] {
      StepKeeps(b, w, events[0], anchor);
      StepLeavesOut(b, w, events[0], anchor, key);
      RunLeavesOut(b, Step(b, w, events[0]), events[1..], anchor, key);
    }
  }

  /** Once a revoke has succeeded, the key stays out through every run in which it is not added again,
      power cycles included: no handshake with it succeeds, and no session is its own. (Every store
      this firmware seeds has generation 1 or more.) */
  lemma RevokedStaysOut(b: Build, w: World, target: nat, o: Outcome, after: World, events: seq<Event>, anchor: Slot,
                        genuine: bool)
    requires BuildOk(b) && Holds(w) && Anchored(b, w.flash, anchor)
    requires w.Running? && w.ram.generation >= 1 && RevokeCandidate(w, target).Some?
    requires CanEnd(w.flash, RevokeCandidate(w, target).value, o) && o.result == Success
    requires after == Land(w, RevokeCandidate(w, target), o)
    requires Holds(after) && Anchored(b, after.flash, anchor) && AllPossible(b, after, events, anchor)
    requires forall e <- events :: !Adds(e, w.ram.slots[target].key)
    ensures var key := w.ram.slots[target].key; var end := Run(b, after, events, anchor);
            && Boot(end.flash).Some? && FindFrom(Boot(end.flash).value.slots, key, 0) == None
            && (end.Running? ==> HandleHandshake(end, key, genuine).session == Closed)
            && (end.Running? && end.session.Ready? ==> end.session.key != key)
  {
    hide Boot, Commit, AllPossible;
    var key, t := w.ram.slots[target].key, RevokeCandidate(w, target).value;
    RevokedUnfindable(w, target, t);
    CommitEnds(w.flash, t, o);
    RevokedOut(w.ram.generation, o.left, t, key);
    RunLeavesOut(b, after, events, anchor, key);
    EveryReachableState(b, after, events, anchor);
  }

  lemma RevokedOut(g: nat, f: Flash, t: Store, key: seq<Byte>)
    requires Boot(f) == Some(t) && g >= 1 && t.generation > g && FindFrom(t.slots, key, 0) == None
    ensures Out(f, key)
  {
  }

  lemma RevokedUnfindable(w: World, target: nat, t: Store)
    requires Holds(w) && w.Running? && RevokeCandidate(w, target) == Some(t)
    ensures Good(t) && target < SLOTS
    ensures FindFrom(t.slots, w.ram.slots[target].key, 0) == None
  {
    RevokeKeepsRules(w.ram, Caller(w.session), target);
  }
}

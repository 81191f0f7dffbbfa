/** Who and what can change a device's roster, over whole runs: administrators alone once the device is
    set up, and start-up only in the cases it is meant for. */
module EnrolmentRules {
  import opened Bytes
  import opened ControllerStore
  import opened StoreRules
  import opened FlashCommit
  import opened E = Enrolment

  /** The session is an administrator's or the recovery administrator's. */
  predicate Administrating(w: World) {
    w.Running? && w.session.Ready? && w.session.role in {2, 3}
  }

  /** A command from any other session, or from none, changes nothing, whatever it asks. */
  lemma OthersArePowerless(b: Build, w: World, e: Event)
    requires Holds(w) && !Administrating(w) && (e.AddCommand? || e.RevokeCommand?)
    requires e.AddCommand? ==> |e.key| == 32
    ensures E.Step(b, w, e) == w
  {
    if w.Running? {
      assert !Administers(w.ram, Caller(w.session));
      match e
      case AddCommand(key, role, o) =>
        AddAnswers(w.ram, Caller(w.session), key, role);
        assert AddCandidate(w, key, role).None?;
      case RevokeCommand(target, o) =>
        RevokeAnswers(w.ram, Caller(w.session), target);
        assert RevokeCandidate(w, target).None?;
    }
  }

  // ---- Start-up ----

  predicate DailySlotsEmpty(s: Store)
    requires |s.slots| == 5
  {
    forall i | 1 <= i < 5 :: s.slots[i].role == 0
  }

  predicate AllErased(f: Flash) {
    |f.a| == 4096 && |f.b| == 4096 && forall i | 0 <= i < 4096 :: f.a[i] == 255 && f.b[i] == 255
  }

  lemma BlankIsErased(f: Flash)
    ensures Blank(f) <==> AllErased(f)
  {
    if AllErased(f) {
      assert f.a == Erased(SECTOR) && f.b == Erased(SECTOR);
    }
  }

  /** A flash that boots is loaded as it is, unless it is a generation-1 store with all daily slots
      empty; a flash that does not boot is left alone and halts the device, unless it is erased. */
  lemma StartUpSpares(b: Build, f: Flash, e: Event)
    requires Holds(Off(f)) && e.PowerOn?
    ensures match Boot(f)
            case Some(s) =>
              s.generation != 1 || !DailySlotsEmpty(s) ==> E.Step(b, Off(f), e) == Running(f, s, Closed)
            case None => !AllErased(f) || (|b.recovery| == 32 && ZeroKey(b.recovery)) ==> E.Step(b, Off(f), e) == Halted(f)
  {
    hide Boot;
    BlankIsErased(f);
    if Boot(f).None? && |b.recovery| == 32 {
      InitialiseAnswers(b.recovery);
    }
  }

  /** Where a start-up commit that was tried leads: on success the device runs with the store it wrote,
      on a reported failure it halts, and a power loss is a power loss. */
  predicate Ends(w: World, t: Store, o: Outcome) {
    match o.result
    case Success => w == Running(o.left, t, Closed)
    case Failure => w == Halted(o.left)
    case Lost => w == Off(o.left)
  }

  /** The import, in every case: a zero or enrolled key halts the device, any other is tried as an
      administrator in slot 1. */
  lemma StartUpImports(b: Build, f: Flash, e: Event)
    requires BuildOk(b) && Holds(Off(f)) && e.PowerOn? && Boot(f).Some?
    requires Boot(f).value.generation == 1 && DailySlotsEmpty(Boot(f).value)
    ensures var s := Boot(f).value;
            if ZeroKey(b.imported) || Enrolled(s, b.imported) then E.Step(b, Off(f), e) == Halted(f)
            else Ends(E.Step(b, Off(f), e), Store(2, s.slots[1 := Slot(2, b.imported)]), e.importing)
  {
    hide Boot, Add;
    var s := Boot(f).value;
    AddAnswers(s, 0, b.imported, ADMIN);
    assert s.slots[0].role == RECOVERY;
    assert BootOrSeed(b, f, e.seed) == Running(f, s, Closed);
    assert ImportDue(s);
    if !ZeroKey(b.imported) && !Enrolled(s, b.imported) {
      var t := Add(s, 0, b.imported, ADMIN).0;
      assert s.slots[1].role == 0;
      var i :| 1 <= i < 5 && s.slots[i].role == 0 && (forall j | 1 <= j < i :: s.slots[j].role != 0)
               && t.slots == s.slots[i := Slot(ADMIN, b.imported)];
      assert i == 1;
      assert t == Store(2, s.slots[1 := Slot(2, b.imported)]);
    }
  }

  /** The seed: an erased flash is seeded with generation 1 and the recovery administrator alone, and
      only a successful seed goes on to the import. */
  lemma StartUpSeeds(b: Build, f: Flash, e: Event)
    requires BuildOk(b) && Holds(Off(f)) && e.PowerOn? && Boot(f).None? && AllErased(f) && !ZeroKey(b.recovery)
    ensures Initialise(b.recovery).Some?
    ensures e.seed.result != Success ==> Ends(E.Step(b, Off(f), e), Initialise(b.recovery).value, e.seed)
    ensures e.seed.result == Success ==>
              E.Step(b, Off(f), e) == Import(b, Running(e.seed.left, Initialise(b.recovery).value, Closed), e.importing)
  {
    hide Boot, Add;
    BlankIsErased(f);
    InitialiseAnswers(b.recovery);
  }

  // ---- Runs without an administrator ----

  /** No command of the run comes from an administrator's session. */
  ghost predicate Unadministered(b: Build, w: World, events: seq<Event>, anchor: Slot)
    requires BuildOk(b) && Holds(w) && Anchored(b, w.flash, anchor) && AllPossible(b, w, events, anchor)
    decreases |events|
  {
    events == [] ||
    (&& (events[0].AddCommand? || events[0].RevokeCommand? ==> !Administrating(w))
     && (events[0].AddCommand? ==> |events[0].key| == 32)
     && (StepKeeps(b, w, events[0], anchor);
         Unadministered(b, E.Step(b, w, events[0]), events[1..], anchor)))
  }

  lemma UnadministeredStep(b: Build, w: World, e: Event, anchor: Slot)
    requires BuildOk(b) && Holds(w) && Anchored(b, w.flash, anchor) && Possible(b, w, e)
    requires Durable(w.flash) >= 2
    requires e.AddCommand? || e.RevokeCommand? ==> !Administrating(w)
    requires e.AddCommand? ==> |e.key| == 32
    ensures E.Step(b, w, e).flash == w.flash
  {
    hide Boot;
    if e.AddCommand? || e.RevokeCommand? {
      OthersArePowerless(b, w, e);
    } else if e.PowerOn? && w.Off? {
      StartUpSpares(b, w.flash, e);
    }
  }

  /** Once a device is set up, a run in which operators alone connect, through any power cycles and
      handshakes, changes not a byte of its flash. */
  lemma {:induction false} OperatorsChangeNothing(b: Build, w: World, events: seq<Event>, anchor: Slot)
    requires BuildOk(b) && Holds(w) && Anchored(b, w.flash, anchor) && AllPossible(b, w, events, anchor)
    requires Durable(w.flash) >= 2 && Unadministered(b, w, events, anchor)
    ensures Run(b, w, events, anchor).flash == w.flash
    decreases |events|
  {
    hide Boot, E.Step, Possible;
    if events != [] {
      StepKeeps(b, w, events[0], anchor);
      UnadministeredStep(b, w, events[0], anchor);
      OperatorsChangeNothing(b, E.Step(b, w, events[0]), events[1..], anchor);
    }
  }

  // ---- Commits ----

  /** The commit's answer in every case: a store of the booted generation is refused, a driver that does
      not run fails, and otherwise success is what boot then says. */
  lemma CommitAnswers(f: Flash, s: Store, executed: bool)
    requires Sized(f) && Shaped(s)
    ensures var (after, status) := Commit(f, s, executed);
            if Boot(f).Some? && Boot(f).value.generation == s.generation then (after, status) == (f, ErrArgument)
            else if !executed then (after, status) == (f, ErrFormat)
            else
              && after == (if Target(f) == SectorA then Flash(Image(s), f.b) else Flash(f.a, Image(s)))
              && (status == Ok <==> Boot(after).Some? && Boot(after).value.generation == s.generation)
              && (status != Ok ==> status == ErrFormat)
  {
  }
}

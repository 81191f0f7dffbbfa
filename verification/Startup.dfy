/** Start-up of the trust store as the firmware runs it: load or seed, then the first-boot import. */
module Startup {
  import opened Bytes
  import opened ControllerStore
  import opened ControllerRoster
  import FlashCommit
  import opened NorFlash
  import opened Enrolment

  /** The result of a driver run as an outcome of the model. */
  ghost function Ended(chip: Chip, status: Status): Outcome
    reads chip.a, chip.b
  {
    Outcome(chip.View(), if status == Ok then Success else Failure)
  }

  method CommitRoster(chip: Chip, roster: Roster, executed: bool) returns (status: Status)
    requires chip.Valid() && Shaped(roster.View())
    modifies chip`log, chip.a, chip.b
    ensures CanEnd(old(chip.View()), old(roster.View()), Ended(chip, status))
  {
    ghost var f, t := chip.View(), roster.View();
    status := chip.Commit(roster, executed);
    assert FlashCommit.Commit(f, t, executed) == (chip.View(), status);
  }

  /** `controller_store_flash_boot_or_seed`. */
  method LoadOrSeed(chip: Chip, roster: Roster, recovery: seq<Byte>, executed: bool)
    returns (ok: bool, ghost seed: Outcome)
    requires chip.Valid() && |recovery| == KEY_LEN
    modifies roster, chip`log, chip.a, chip.b
    ensures FlashCommit.Boot(old(chip.View())).None? && Blank(old(chip.View())) && Initialise(recovery).Some? ==>
              CanEnd(old(chip.View()), Initialise(recovery).value, seed)
    ensures BootOrSeed(Build(recovery, recovery), old(chip.View()), seed) ==
              if ok then Running(chip.View(), roster.View(), Closed) else Halted(chip.View())
  {
    seed := Outcome(chip.View(), Failure);
    var stored := chip.BootExisting();
    if stored.Some? {
      roster.generation, roster.slots := stored.value.generation, stored.value.slots;
      return true, seed;
    }
    var blank := chip.SectorsErased();
    if !blank { return false, seed; }
    var status := roster.Initialise(recovery);
    if status != Ok { return false, seed; }
    InitialiseGood(recovery);
    status := CommitRoster(chip, roster, executed);
    return status == Ok, Ended(chip, status);
  }

  /** `controller_setup`: every run is a power-on of the enrolment model that no power cut ended. */
  method ControllerSetup(chip: Chip, roster: Roster, b: Build, seeded: bool, imported: bool)
    returns (ok: bool, ghost seed: Outcome, ghost importing: Outcome)
    requires chip.Valid() && BuildOk(b)
    modifies roster, chip`log, chip.a, chip.b
    ensures Possible(b, Off(old(chip.View())), PowerOn(seed, importing))
    ensures Step(b, Off(old(chip.View())), PowerOn(seed, importing)) ==
              if ok then Running(chip.View(), roster.View(), Closed) else Halted(chip.View())
  {
    ok, seed := LoadOrSeed(chip, roster, b.recovery, seeded);
    importing := Outcome(chip.View(), Failure);
    ghost var loaded := BootOrSeed(b, old(chip.View()), seed);
    assert loaded == BootOrSeed(Build(b.recovery, b.recovery), old(chip.View()), seed);
    if !ok { return; }
    SeedKeepsSize(b, old(chip.View()), seed);
    ok, importing := ImportFirst(chip, roster, b, imported);
  }

  lemma SeedKeepsSize(b: Build, f: FlashCommit.Flash, seed: Outcome)
    requires BuildOk(b) && FlashCommit.Sized(f) && BootOrSeed(b, f, seed).Running?
    requires FlashCommit.Boot(f).None? && Blank(f) && Initialise(b.recovery).Some? ==>
               CanEnd(f, Initialise(b.recovery).value, seed)
    ensures Good(BootOrSeed(b, f, seed).ram)
  {
    InitialiseGood(b.recovery);
  }

  /** The import half of `controller_setup`. */
  method ImportFirst(chip: Chip, roster: Roster, b: Build, executed: bool) returns (ok: bool, ghost importing: Outcome)
    requires chip.Valid() && BuildOk(b) && Shaped(roster.View())
    modifies roster, chip`log, chip.a, chip.b
    ensures ImportDue(old(roster.View())) && Add(old(roster.View()), 0, b.imported, ADMIN).1 == Ok ==>
              CanEnd(old(chip.View()), Add(old(roster.View()), 0, b.imported, ADMIN).0, importing)
    ensures Import(b, Running(old(chip.View()), old(roster.View()), Closed), importing) ==
              if ok then Running(chip.View(), roster.View(), Closed) else Halted(chip.View())
  {
    importing := Outcome(chip.View(), Failure);
    var empty := true;
    for i := 1 to SLOTS
      invariant empty == forall k | 1 <= k < i :: roster.slots[k].role == NONE
      invariant roster.View() == old(roster.View()) && chip.View() == old(chip.View())
    {
      if roster.slots[i].role != NONE { empty := false; }
    }
    if roster.generation != 1 || !empty { return true, importing; }
    var status := roster.Add(0, b.imported, ADMIN);
    if status != Ok { return false, importing; }
    status := CommitRoster(chip, roster, executed);
    return status == Ok, Ended(chip, status);
  }
}

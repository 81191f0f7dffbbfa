/** What the command core promises, in the bytes that travel: command codes, status bytes, and who may
    do what. */
module FirmwareRules {
  import opened Bytes
  import opened Compiler
  import Spec = CoreSpec
  import opened Packets
  import Store = ControllerStore
  import opened StoreRules
  import opened Enrolment
  import opened EnrolmentRules
  import opened Firmware
  import Radio = RadioRecord

  // ---- Codes ----

  /** The statuses in the order of their bytes. */
  const STATUSES: seq<Status> :=
    [Ok, Done, ErrArgument, ErrState, ErrBusy, ErrLimit, ErrUtf8, ErrUnsupported, ErrPolicy, ErrOwner, ErrId, ErrExpired, ErrReplay]

  /** Status bytes number the statuses from 0 for success; no two share one. */
  lemma StatusBytes(s: Status, t: Status)
    ensures StatusByte(s) < 13 && STATUSES[StatusByte(s)] == s
    ensures StatusByte(s) == 0 <==> s == Ok
    ensures StatusByte(s) == StatusByte(t) <==> s == t
  {
  }

  lemma CommandCodes(data: Octets, networked: bool)
    ensures TypingCommand(data) <==> data != [] && 1 <= data[0] <= 4
    ensures Known(data, networked) <==>
              data != [] &&
              (|| data[0] in {1, 2, 3, 4, 7, 8, 9, 10}
               || (networked && 11 <= data[0] <= 20 && (data[0] == 16 ==> |data| == 2)))
  {
  }

  /** What each typing command asks of the core, from its bytes. */
  lemma TypingRule(c: Spec.Core, data: Octets, now: nat)
    requires TypingCommand(data) && |data| < 0x1_0000
    ensures data[0] == 1 ==>
              TypingStep(c, data, now) ==
                (match StageRequest(data, now)
                 case None => (c, ErrArgument)
                 case Some(r) => if r.Readable() then Spec.Stage(c, r) else (c, ErrArgument))
    ensures data[0] == 1 && StageRequest(data, now).Some? ==> StageRequest(data, now).value.Readable()
    ensures data[0] in {2, 3} && |data| < 9 ==> TypingStep(c, data, now) == (c, ErrArgument)
    ensures data[0] == 2 && |data| >= 9 ==> TypingStep(c, data, now) == Spec.Confirm(c, Spec.Entry(Word32(data, 1), Word32(data, 5)), now)
    ensures data[0] == 3 && |data| >= 9 ==> TypingStep(c, data, now) == Spec.Cancel(c, Spec.Entry(Word32(data, 1), Word32(data, 5)))
    ensures data[0] == 4 ==>
              TypingStep(c, data, now) == if |data| < 5 then (c, ErrArgument) else Spec.Tick(c, Word32(data, 1))
  {
    hide Spec.Stage, Spec.Confirm, Spec.Cancel, Spec.Tick, StageRequest, LeValue;
    StageNeverOverreads(data, now);
    JobRead(data);
    if |data| >= 5 {
      LittleEndianValue(data[1..5]);
    }
  }

  // ---- Who may do what ----

  lemma AdministersIs(w: World)
    requires w.Running? && Holds(w)
    ensures Administrating(w) <==> Administers(w.ram, Caller(w.session))
    ensures Administrating(w) <==> Store.IsAdmin(w.ram, Caller(w.session))
  {
  }

  /** An add command, in every case: without an administrator's session, or of the wrong length, it
      answers 9; for a role that cannot be added, a zero key or an enrolled key 2; for a full roster 5;
      otherwise it commits, and answers 0 with the controller in the first free slot, or 3. Unless it
      answers 0 the roster in memory is as it was; unless it commits nothing has changed at all. */
  lemma AddCommandAnswers(before: Machine, after: Machine, networked: bool, now: nat, p: Octets, o: Outside,
                          code: Byte, status: Status)
    requires Sane(before) && |p| < 0x1_0000 && p != [] && p[0] == 7
    requires Effect(before, after, networked, now, p, o, code, status)
    ensures var s := before.trust.ram;
            && after.core == before.core && after.radio == before.radio
            && after.trust.Running? && after.trust.session == before.trust.session
            && (code != 0 ==> after.trust.ram == s)
            && (if !Administrating(before.trust) || |p| != 34 then code == 9 && after == before
                else if p[1] !in {1, 2} || ZeroKey(p[2..]) || Enrolled(s, p[2..]) then code == 2 && after == before
                else if Full(s) then code == 5 && after == before
                else
                  && code in {0, 3}
                  && (code == 0 ==>
                        && after.trust.ram.generation == Next(s.generation)
                        && exists i | 1 <= i < 5 ::
                             s.slots[i].role == 0 && after.trust.ram.slots == s.slots[i := Store.Slot(p[1], p[2..])]))
  {
    hide FlashCommit.Boot, FlashCommit.Commit, Store.Add, CanEnd, TypingStep, SetRadioStep, ClearRadioStep;
    var w := before.trust;
    AdministersIs(w);
    if |p| == 34 {
      AddAnswers(w.ram, Caller(w.session), p[2..], p[1]);
    }
  }

  /** A revoke command, in every case: the same, except that the session's own slot and slot 0 answer 8,
      and a slot that does not exist or is empty 2. */
  lemma RevokeCommandAnswers(before: Machine, after: Machine, networked: bool, now: nat, p: Octets, o: Outside,
                             code: Byte, status: Status)
    requires Sane(before) && |p| < 0x1_0000 && p != [] && p[0] == 8
    requires Effect(before, after, networked, now, p, o, code, status)
    ensures var s := before.trust.ram;
            && after.core == before.core && after.radio == before.radio
            && after.trust.Running? && after.trust.session == before.trust.session
            && (code != 0 ==> after.trust.ram == s)
            && (if !Administrating(before.trust) || |p| != 2 then code == 9 && after == before
                else if p[1] == Caller(before.trust.session) || p[1] == 0 then code == 8 && after == before
                else if p[1] >= 5 || s.slots[p[1]].role == 0 then code == 2 && after == before
                else
                  && code in {0, 3}
                  && (code == 0 ==>
                        && after.trust.ram.generation == Next(s.generation)
                        && after.trust.ram.slots == s.slots[p[1] := Store.Slot(0, seq(32, i => 0))]))
  {
    hide FlashCommit.Boot, FlashCommit.Commit, Store.Revoke, CanEnd, TypingStep, SetRadioStep, ClearRadioStep;
    var w := before.trust;
    AdministersIs(w);
    if |p| == 2 {
      RevokeAnswers(w.ram, Caller(w.session), p[1]);
    }
  }

  /** The radio record changes only under a set-radio or clear-radio command of an administrator's
      session while no USB host is present. */
  lemma PhysicalPresence(before: Machine, after: Machine, networked: bool, now: nat, p: Octets, o: Outside,
                         code: Byte, status: Status)
    requires Sane(before) && |p| < 0x1_0000 && Effect(before, after, networked, now, p, o, code, status)
    requires after.radio != before.radio
    ensures p != [] && p[0] in {9, 10} && Administrating(before.trust) && !o.mounted
    ensures o.left == Some(after.radio)
  {
    hide FlashCommit.Boot, FlashCommit.Commit, CanEnd, TypingStep, Radio.Build2, Lands;
    AdministersIs(before.trust);
  }

  /** A set-radio command, in every case, by the byte its receipt carries. */
  lemma SetRadioAnswers(before: Machine, after: Machine, networked: bool, now: nat, p: Octets, o: Outside,
                        code: Byte, status: Status)
    requires Sane(before) && |p| < 0x1_0000 && p != [] && p[0] == 9
    requires Effect(before, after, networked, now, p, o, code, status)
    ensures if |p| < 3 then code == 2
            else if !Administrating(before.trust) then code == 9
            else if o.mounted then code == 8
            else
              var a: int, b: int := p[1], p[2];
              if |p| != 3 + a + b || Radio.Build2(p[3..3 + a], p[3 + a..]).None? then code == 2
              else if o.left == None || o.left.value != Radio.Build2(p[3..3 + a], p[3 + a..]).value then code == 3
              else code == 0
    ensures code == 0 ==> Provisioned(p, after.radio)
  {
    hide FlashCommit.Boot, FlashCommit.Commit, CanEnd, TypingStep, Radio.Build2, Lands, Provisioned;
    AdministersIs(before.trust);
  }

  /** A clear-radio command, likewise. */
  lemma ClearRadioAnswers(before: Machine, after: Machine, networked: bool, now: nat, p: Octets, o: Outside,
                          code: Byte, status: Status)
    requires Sane(before) && |p| < 0x1_0000 && p != [] && p[0] == 10
    requires Effect(before, after, networked, now, p, o, code, status)
    ensures if !Administrating(before.trust) then code == 9
            else if o.mounted then code == 8
            else code == if o.left.Some? && (forall i | 0 <= i < 4096 :: o.left.value[i] == 255) then 0 else 3
  {
    hide FlashCommit.Boot, FlashCommit.Commit, CanEnd, TypingStep, Lands;
    AdministersIs(before.trust);
    if o.left.Some? && forall i | 0 <= i < 4096 :: o.left.value[i] == 255 {
      assert o.left.value == Radio.Fill(Radio.SECTOR);
    }
  }

  /** A diagnostic reads and changes nothing. */
  lemma DiagnosticsAnswer(before: Machine, after: Machine, now: nat, p: Octets, o: Outside, code: Byte, status: Status)
    requires Sane(before) && |p| < 0x1_0000 && p != [] && 11 <= p[0] <= 20 && (p[0] == 16 ==> |p| == 2)
    requires Effect(before, after, true, now, p, o, code, status)
    ensures code == o.reading && after == before
  {
    hide FlashCommit.Boot, FlashCommit.Commit, CanEnd, TypingStep;
  }

  // ---- Commands are the events of the enrolment model ----

  /** Every add command that reaches its handler from a running device is an add event of the enrolment
      model, with an outcome that its commit can have; so what holds of all runs of events holds of all
      runs of commands. */
  lemma AddCommandIsEvent(b: Build, before: Machine, after: Machine, networked: bool, now: nat, p: Octets, o: Outside,
                          code: Byte, status: Status)
    requires Sane(before) && |p| == 34 && p[0] == 7 && Effect(before, after, networked, now, p, o, code, status)
    ensures var e := AddCommand(p[2..], p[1], Outcome(after.trust.flash, if status == Ok then Success else Failure));
            Possible(b, before.trust, e) && Enrolment.Step(b, before.trust, e) == after.trust
  {
    hide FlashCommit.Boot, FlashCommit.Commit, CanEnd, TypingStep, SetRadioStep, ClearRadioStep, AddCandidate;
  }

  lemma RevokeCommandIsEvent(b: Build, before: Machine, after: Machine, networked: bool, now: nat, p: Octets, o: Outside,
                             code: Byte, status: Status)
    requires Sane(before) && |p| == 2 && p[0] == 8 && Effect(before, after, networked, now, p, o, code, status)
    ensures var e := RevokeCommand(p[1], Outcome(after.trust.flash, if status == Ok then Success else Failure));
            Possible(b, before.trust, e) && Enrolment.Step(b, before.trust, e) == after.trust
  {
    hide FlashCommit.Boot, FlashCommit.Commit, CanEnd, TypingStep, SetRadioStep, ClearRadioStep, RevokeCandidate;
  }
}

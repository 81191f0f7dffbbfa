/** The command core of the firmware: one complete frame in, at most one response out, over the
    typing core, the roster with its flash, and the Noise session. */
module Firmware {
  import opened Bytes
  import opened Compiler
  import Spec = CoreSpec
  import Typing = BridgeCore
  import opened Packets
  import Store = ControllerStore
  import opened ControllerRoster
  import FlashCommit
  import NorFlash
  import opened Enrolment
  import Noise = NoiseIK
  import NoiseAgreement
  import NoiseWire
  import opened NoiseParties
  import Transport
  import RadioConfig
  import Radio = RadioRecord

  type Octets = seq<Byte>

  const CMD_SET_RADIO: Byte := 9
  const CMD_CLEAR_RADIO: Byte := 10
  const CMD_NET_STATUS: Byte := 11
  const CMD_NET_IP: Byte := 16
  const CMD_NET_SCAN_RSSI: Byte := 20

  lemma DecryptedShort(c: Noise.Crypto, d: Noise.Device, packet: Octets)
    requires Noise.Laws(c)
    ensures Noise.DecryptPacket(c, d, packet).1.Some? ==> |Noise.DecryptPacket(c, d, packet).1.value| <= Noise.MAX_PLAINTEXT
  {
  }

  type RadioSector = s: Octets | |s| == Radio.SECTOR witness Radio.Fill(Radio.SECTOR)

  /** What the outside world decides while a command runs: whether the trust store's flash driver ran,
      whether a USB host is present, what the radio sector holds once its own driver has run (absent
      if it did not run), and the byte a network diagnostic reads out. */
  datatype Outside = Outside(executed: bool, mounted: bool, left: Option<RadioSector>, reading: Byte)

  /** The byte a status travels as. */
  function StatusByte(s: Status): Byte {
    match s
    case Ok => 0 case Done => 1 case ErrArgument => 2 case ErrState => 3 case ErrBusy => 4
    case ErrLimit => 5 case ErrUtf8 => 6 case ErrUnsupported => 7 case ErrPolicy => 8
    case ErrOwner => 9 case ErrId => 10 case ErrExpired => 11 case ErrReplay => 12
  }

  // ---- What a command does to the typing core ----

  predicate TypingCommand(data: Octets) {
    data != [] && data[0] in {CMD_STAGE, CMD_CONFIRM, CMD_CANCEL, CMD_TICK}
  }

  function TypingStep(c: Spec.Core, data: Octets, now: nat): (Spec.Core, Status)
    requires TypingCommand(data) && |data| < TWO_16
  {
    StageNeverOverreads(data, now);
    if data[0] == CMD_STAGE then
      match StageRequest(data, now)
      case None => (c, ErrArgument)
      case Some(r) => Spec.Stage(c, r)
    else if data[0] == CMD_CONFIRM then
      match JobOf(data)
      case None => (c, ErrArgument)
      case Some(job) => Spec.Confirm(c, job, now)
    else if data[0] == CMD_CANCEL then
      match JobOf(data)
      case None => (c, ErrArgument)
      case Some(job) => Spec.Cancel(c, job)
    else if |data| < 5 then (c, ErrArgument)
    else Spec.Tick(c, LeValue(data[1..5]))
  }

  // ---- What a command does to the roster ----

  /** The store a command tries to commit, if any. */
  function Candidate(w: World, data: Octets): Option<Store.Store>
    requires w.Running? && |w.ram.slots| == Store.SLOTS
  {
    if data == [] then None
    else if data[0] == CMD_ADD && |data| == 34 then AddCandidate(w, data[2..], data[1])
    else if data[0] == CMD_REVOKE && |data| == 2 then RevokeCandidate(w, data[1])
    else None
  }

  /** The answer to an enrolment command that gets no further than its checks. */
  function Refusal(w: World, data: Octets): Status
    requires w.Running? && |w.ram.slots| == Store.SLOTS
    requires data != [] && data[0] in {CMD_ADD, CMD_REVOKE}
  {
    var caller := Caller(w.session);
    if |data| != (if data[0] == CMD_ADD then 34 else 2) || !Store.IsAdmin(w.ram, caller) then ErrOwner
    else if data[0] == CMD_ADD then
      if data[1] in {Store.OPERATOR, Store.ADMIN} && Store.Add(w.ram, caller, data[2..], data[1]).1 == Store.ErrFull
      then ErrLimit else ErrArgument
    else if data[1] == caller || Store.Revoke(w.ram, caller, data[1]).1 == Store.ErrImmutable then ErrPolicy
    else ErrArgument
  }

  // ---- What a command does to the radio record ----

  /** `radio_provision_flash_write_and_verify` and its clearing twin: the sector afterwards, and
      whether it reads back as what it should hold. */
  function Rewrite(radio: RadioSector, want: Octets, left: Option<RadioSector>): (RadioSector, Status) {
    match left
    case None => (radio, ErrState)
    case Some(x) => (x, if x == want then Ok else ErrState)
  }

  /** The radio sector after a set-radio packet, and the answer. */
  function SetRadioStep(radio: RadioSector, p: Octets, admin: bool, o: Outside): (RadioSector, Status) {
    if |p| < 3 then (radio, ErrArgument)
    else if !admin then (radio, ErrOwner)
    else if o.mounted then (radio, ErrPolicy)
    else
      var a: int, b: int := p[1], p[2];
      if |p| != 3 + a + b then (radio, ErrArgument)
      else
        match Radio.Build2(p[3..3 + a], p[3 + a..])
        case None => (radio, ErrArgument)
        case Some(image) => Rewrite(radio, image, o.left)
  }

  function ClearRadioStep(radio: RadioSector, admin: bool, o: Outside): (RadioSector, Status) {
    if !admin then (radio, ErrOwner)
    else if o.mounted then (radio, ErrPolicy)
    else Rewrite(radio, Radio.Fill(Radio.SECTOR), o.left)
  }

  /** The sector holds the network name and key that a set-radio packet carries. */
  ghost predicate Provisioned(p: Octets, sector: Octets) {
    |p| >= 3 &&
    var a: int, b: int := p[1], p[2];
    && |p| == 3 + a + b
    && Radio.Parse(Radio.SCHEMA_2, sector) == Some(Radio.Config(p[3..3 + a], p[3 + a..], [], []))
  }

  // ---- What a frame does to the session ----

  /** The read-outs that only a build with the network endpoint has. */
  predicate Diagnostic(data: Octets) {
    data != [] && CMD_NET_STATUS <= data[0] <= CMD_NET_SCAN_RSSI && (data[0] == CMD_NET_IP ==> |data| == 2)
  }

  /** The commands that are answered with a receipt. */
  predicate Known(data: Octets, networked: bool) {
    data != [] &&
    (TypingCommand(data) || data[0] in {CMD_ADD, CMD_REVOKE, CMD_SET_RADIO, CMD_CLEAR_RADIO}
     || (networked && Diagnostic(data)))
  }

  /** The receipt that a frame's command earns. */
  function Due(command: Option<Octets>, networked: bool, code: Byte): Option<Byte> {
    if command.Some? && Known(command.value, networked) then Some(code) else None
  }

  /** Every frame the firmware handles, handshakes included, is one move of the transport model, so the
      order of commands and receipts proved there holds of the firmware. */
  lemma FrameIsAMove(c: Noise.Crypto, l: Transport.Link, slots: seq<Store.Slot>, frame: Octets, ephemeral: Octets,
                     due: Option<Byte>)
    ensures var command := Transport.Opens(c, l.device, frame).1;
            var (device, response) := Transport.Reacts(c, l.device, slots, frame, ephemeral, due);
            var after := Transport.Play(c, l, Transport.ToDevice(frame, slots, ephemeral, due));
            && after.device == device && after.responses == l.responses + Transport.Listed(response)
            && after.live == (l.live && !Transport.IsHandshake(frame))
            && after.executed == (if l.live then l.executed + Transport.Listed(command) else l.executed)
            && after.receipts ==
               (if l.live && command.Some? then l.receipts + Transport.Listed(response) else l.receipts)
            && after.host == l.host && after.sealed == l.sealed && after.accepted == l.accepted
  {
    assert l.executed + [] == l.executed && l.receipts + [] == l.receipts;
  }

  // ---- What an opened command does to the whole machine ----

  datatype Machine = Machine(core: Spec.Core, trust: World, radio: RadioSector)

  ghost predicate Sane(m: Machine) {
    m.trust.Running? && Holds(m.trust)
  }

  /** The trust state moved as the enrolment model says, with the outcome of running the commit, and
      the status tells how far the command got. */
  ghost predicate Lands(before: World, after: World, p: Octets, executed: bool, status: Status)
    requires before.Running? && Holds(before)
  {
    var o := Outcome(after.flash, if status == Ok then Success else Failure);
    && after == Land(before, Candidate(before, p), o)
    && (p != [] && p[0] in {CMD_ADD, CMD_REVOKE} && Candidate(before, p).None? ==> status == Refusal(before, p))
    && (Candidate(before, p).Some? ==>
          var t := Candidate(before, p).value;
          && CanEnd(before.flash, t, o)
          && var (left, result) := FlashCommit.Commit(before.flash, t, executed);
             after.flash == left && status == if result == Store.Ok then Ok else ErrState)
  }

  /** What one command does: typing commands touch only the core, enrolment commands only the trust
      state, radio commands only the radio record, everything else nothing; and the byte that its
      receipt carries. */
  ghost predicate Effect(before: Machine, after: Machine, networked: bool, now: nat, p: Octets, o: Outside,
                         code: Byte, status: Status)
    requires Sane(before) && |p| < TWO_16
  {
    var admin := Store.IsAdmin(before.trust.ram, Caller(before.trust.session));
    && code == (if networked && Diagnostic(p) then o.reading else StatusByte(status))
    && (if TypingCommand(p) then (after.core, status) == TypingStep(before.core, p, now) && after.trust == before.trust
        else after.core == before.core && Lands(before.trust, after.trust, p, o.executed, status))
    && (if p != [] && p[0] == CMD_SET_RADIO then
          (after.radio, status) == SetRadioStep(before.radio, p, admin, o) && (status == Ok ==> Provisioned(p, after.radio))
        else if p != [] && p[0] == CMD_CLEAR_RADIO then (after.radio, status) == ClearRadioStep(before.radio, admin, o)
        else after.radio == before.radio)
    && (!Known(p, networked) ==> status == ErrArgument)
  }

  class Bridge {
    const core: Typing.Core
    const roster: Roster
    const chip: NorFlash.Chip
    const noise: Responder
    /** Whether the build has the network endpoint (`BRIDGE_ENABLE_NET`). */
    const networked: bool
    /** `ble_now_ms`, sampled once per main-loop pass. */
    var now: nat
    /** The radio record's flash sector. */
    var radio: RadioSector
    /** The static key that matched at the last successful handshake. */
    ghost var sessionKey: Octets

    ghost function Trust(): World
      reads this, roster, chip.a, chip.b, noise
    {
      Running(chip.View(), roster.View(),
              if noise.ready then Ready(noise.authSlot, noise.authRole, sessionKey) else Closed)
    }

    ghost function View(): Machine
      requires core.Valid()
      reads this, core, core.strokes, core.replay, roster, chip.a, chip.b, noise
    {
      Machine(core.View(), Trust(), radio)
    }

    ghost predicate Valid()
      reads this, core, roster, chip.a, chip.b, noise
    {
      core.Valid() && chip.Valid() && Noise.Laws(noise.crypto) && Holds(Trust())
    }

    /** The firmware after a successful start: the roster in memory is what the flash boots to. */
    constructor (core: Typing.Core, roster: Roster, chip: NorFlash.Chip, noise: Responder, networked: bool,
                 radio: RadioSector, now: nat)
      requires core.Valid() && chip.Valid() && Noise.Laws(noise.crypto) && !noise.ready
      requires FlashCommit.Boot(chip.View()) == Some(roster.View())
      ensures Valid() && this.core == core && this.roster == roster && this.chip == chip && this.noise == noise
      ensures Trust() == Running(chip.View(), roster.View(), Closed)
    {
      this.core, this.roster, this.chip, this.noise := core, roster, chip, noise;
      this.networked, this.radio, this.now := networked, radio, now;
      sessionKey := [];
    }

    function AuthenticatedSlot(): nat
      reads noise
    {
      if noise.ready then noise.authSlot else Store.SLOTS
    }

    /** Whether the current session may administer the roster. */
    predicate IsAdmin()
      reads roster, noise
    {
      |roster.slots| == Store.SLOTS && Store.IsAdmin(Store.Store(roster.generation, roster.slots), AuthenticatedSlot())
    }

    // ---- Typing commands ----

    method HandleStage(p: Octets) returns (status: Status)
      requires core.Valid() && |p| < TWO_16
      modifies core, core.strokes, core.replay
      ensures core.Valid()
      ensures p != [] && p[0] == CMD_STAGE ==> (core.View(), status) == TypingStep(old(core.View()), p, now)
    {
      StageNeverOverreads(p, now);
      if |p| < 14 { return ErrArgument; }
      var job := Spec.Entry(LeValue(p[1..5]), LeValue(p[5..9]));
      var policy := Policy(Layout(p[9]), Mode(p[10]), p[11]);
      var ulen := LeValue(p[12..14]);
      if |p| < (14 + ulen) % TWO_16 { return ErrArgument; }
      status := core.Stage(Spec.Request(job, policy, Some(p[14..]), ulen, now, Spec.MAX_TTL));
    }

    method HandleTyping(p: Octets) returns (status: Status)
      requires core.Valid() && TypingCommand(p) && |p| < TWO_16
      modifies core, core.strokes, core.replay
      ensures core.Valid()
      ensures (core.View(), status) == TypingStep(old(core.View()), p, now)
    {
      if p[0] == CMD_STAGE {
        status := HandleStage(p);
      } else if p[0] == CMD_CONFIRM {
        if |p| < 9 { return ErrArgument; }
        status := core.Confirm(Spec.Entry(LeValue(p[1..5]), LeValue(p[5..9])), now);
      } else if p[0] == CMD_CANCEL {
        if |p| < 9 { return ErrArgument; }
        status := core.Cancel(Spec.Entry(LeValue(p[1..5]), LeValue(p[5..9])));
      } else {
        if |p| < 5 { return ErrArgument; }
        status := core.Tick(LeValue(p[1..5]));
      }
    }

    // ---- Enrolment commands ----

    /** Commits the candidate and, only on reported success, makes it the roster in memory. */
    method CommitCandidate(candidate: Roster, executed: bool) returns (status: Status)
      requires Valid() && candidate != roster && Store.Shaped(candidate.View())
      modifies roster, chip`log, chip.a, chip.b
      ensures chip.Valid()
      ensures var (left, result) := FlashCommit.Commit(old(chip.View()), old(candidate.View()), executed);
              chip.View() == left && status == if result == Store.Ok then Ok else ErrState
      ensures var o := Outcome(chip.View(), if status == Ok then Success else Failure);
              && CanEnd(old(chip.View()), old(candidate.View()), o)
              && Trust() == CommandCommits(old(Trust()), old(candidate.View()), o)
    {
      hide FlashCommit.Boot, FlashCommit.Put, Store.Image;
      ghost var before, t := chip.View(), candidate.View();
      var result := chip.Commit(candidate, executed);
      assert FlashCommit.Commit(before, t, executed) == (chip.View(), result);
      if result != Store.Ok { return ErrState; }
      roster.generation, roster.slots := candidate.generation, candidate.slots;
      return Ok;
    }

    /** `ble_handle_controller_add`. */
    method HandleControllerAdd(p: Octets, executed: bool) returns (status: Status)
      requires Valid() && p != [] && p[0] == CMD_ADD
      modifies roster, chip`log, chip.a, chip.b
      ensures Valid() && Lands(old(Trust()), Trust(), p, executed, status)
    {
      hide FlashCommit.Boot, FlashCommit.Commit, Store.FindFrom, Store.FreeFrom, Store.Add, Store.Revoke, CanEnd;
      if |p| != 34 || !IsAdmin() { return ErrOwner; }
      var role := p[1];
      if role != Store.OPERATOR && role != Store.ADMIN { return ErrArgument; }
      var candidate := new Roster(Store.Store(roster.generation, roster.slots));
      var added := candidate.Add(AuthenticatedSlot(), p[2..], role);
      if added != Store.Ok {
        return if added == Store.ErrFull then ErrLimit else ErrArgument;
      }
      assert Candidate(Trust(), p) == Some(candidate.View());
      status := CommitCandidate(candidate, executed);
      LandingHolds(old(Trust()), p, Outcome(chip.View(), if status == Ok then Success else Failure));
    }

    /** `ble_handle_controller_revoke`. */
    method HandleControllerRevoke(p: Octets, executed: bool) returns (status: Status)
      requires Valid() && p != [] && p[0] == CMD_REVOKE
      modifies roster, chip`log, chip.a, chip.b
      ensures Valid() && Lands(old(Trust()), Trust(), p, executed, status)
    {
      hide FlashCommit.Boot, FlashCommit.Commit, Store.FindFrom, Store.Add, Store.Revoke, CanEnd;
      if |p| != 2 || !IsAdmin() { return ErrOwner; }
      var target := p[1];
      if target == AuthenticatedSlot() { return ErrPolicy; }
      var candidate := new Roster(Store.Store(roster.generation, roster.slots));
      var revoked := candidate.Revoke(AuthenticatedSlot(), target);
      if revoked == Store.ErrImmutable { return ErrPolicy; }
      if revoked != Store.Ok { return ErrArgument; }
      assert Candidate(Trust(), p) == Some(candidate.View());
      status := CommitCandidate(candidate, executed);
      LandingHolds(old(Trust()), p, Outcome(chip.View(), if status == Ok then Success else Failure));
    }

    lemma LandingHolds(w: World, p: Octets, o: Outcome)
      requires w.Running? && Holds(w) && |p| < TWO_16
      requires Candidate(w, p).Some? ==> CanEnd(w.flash, Candidate(w, p).value, o)
      ensures Holds(Land(w, Candidate(w, p), o))
    {
      hide FlashCommit.Boot, FlashCommit.Commit, Store.FindFrom, Store.FreeFrom;
      if Candidate(w, p).Some? {
        var t := Candidate(w, p).value;
        if p[0] == CMD_ADD {
          assert AddCandidate(w, p[2..], p[1]) == Some(t);
        } else {
          assert RevokeCandidate(w, p[1]) == Some(t);
        }
        CandidateSpares(w, t);
        CommandKeeps(Build([], []), w, t, o, w.ram.slots[0]);
      }
    }

    // ---- Radio commands ----

    /** `radio_provision_flash_write_and_verify`. */
    method WriteAndVerify(image: RadioSector, left: Option<RadioSector>) returns (ok: bool)
      requires Radio.Parse(Radio.SCHEMA_2, image).Some?
      modifies this`radio
      ensures (radio, if ok then Ok else ErrState) == Rewrite(old(radio), image, left)
    {
      var candidate := RadioConfig.ParseCommon(image, Radio.SCHEMA_2);
      if candidate.None? { return false; }
      if left.None? { return false; }
      radio := left.value;
      if radio != image { return false; }
      var persisted := RadioConfig.ParseCommon(radio, Radio.SCHEMA_2);
      if persisted.None? { return false; }
      return persisted.value.ssid == candidate.value.ssid && persisted.value.psk == candidate.value.psk;
    }

    /** `ble_handle_set_radio`. */
    method HandleSetRadio(p: Octets, o: Outside) returns (status: Status)
      modifies this`radio
      ensures (radio, status) == SetRadioStep(old(radio), p, IsAdmin(), o)
      ensures status == Ok ==> Provisioned(p, radio)
    {
      hide Radio.Parse, Radio.Build2;
      if |p| < 3 { return ErrArgument; }
      if !IsAdmin() { return ErrOwner; }
      if o.mounted { return ErrPolicy; }
      var a, b: int := p[1], p[2];
      if |p| != 3 + a + b { return ErrArgument; }
      var image := new Byte[4096];
      var ok := RadioConfig.Build(p[3..3 + a], p[3 + a..], image);
      if !ok { return ErrArgument; }
      Radio.Schema2Bijection(p[3..3 + a], p[3 + a..], []);
      ok := WriteAndVerify(image[..], o.left);
      return if ok then Ok else ErrState;
    }

    /** `ble_handle_clear_radio` with `radio_provision_flash_clear`. */
    method HandleClearRadio(o: Outside) returns (status: Status)
      modifies this`radio
      ensures (radio, status) == ClearRadioStep(old(radio), IsAdmin(), o)
    {
      if !IsAdmin() { return ErrOwner; }
      if o.mounted { return ErrPolicy; }
      if o.left.None? { return ErrState; }
      radio := o.left.value;
      var erased := RadioConfig.AllErased(radio);
      assert erased <==> radio == Radio.Fill(Radio.SECTOR);
      return if erased then Ok else ErrState;
    }

    // ---- Dispatch ----

    /** `ble_handle_authenticated_command`: whether a receipt is due, and the byte it carries. */
    method HandleAuthenticatedCommand(data: Octets, o: Outside) returns (receipt: bool, code: Byte, ghost status: Status)
      requires Valid() && |data| < TWO_16
      modifies this`radio, core, core.strokes, core.replay, roster, chip`log, chip.a, chip.b
      ensures Valid()
      ensures receipt == Known(data, networked)
      ensures Effect(old(View()), View(), networked, now, data, o, code, status)
    {
      hide FlashCommit.Boot, FlashCommit.Commit, Store.FindFrom, Store.FreeFrom, TypingStep, SetRadioStep, ClearRadioStep;
      status := ErrArgument;
      if data == [] { return false, StatusByte(ErrArgument), status; }
      var s;
      if TypingCommand(data) {
        s := HandleTyping(data);
      } else if data[0] == CMD_ADD {
        s := HandleControllerAdd(data, o.executed);
      } else if data[0] == CMD_REVOKE {
        s := HandleControllerRevoke(data, o.executed);
      } else if data[0] == CMD_SET_RADIO {
        s := HandleSetRadio(data, o);
      } else if data[0] == CMD_CLEAR_RADIO {
        s := HandleClearRadio(o);
      } else if networked && Diagnostic(data) {
        return true, o.reading, status;
      } else {
        return false, StatusByte(ErrArgument), status;
      }
      return true, StatusByte(s), s;
    }

    // ---- Frames ----

    /** The handshake branch of `command_process_frame`. */
    method HandleHandshakeFrame(message: Octets, ephemeral: Octets) returns (response: Option<Octets>)
      requires Valid() && |message| == 80
      modifies noise, this`sessionKey
      ensures Valid()
      ensures exists key, genuine :: Trust() == HandleHandshake(old(Trust()), key, genuine)
      ensures response.None? ==> !noise.ready
      ensures response.Some? ==> noise.ready && |response.value| == 53
      ensures (noise.View(), response) ==
                Noise.Respond(noise.crypto, old(noise.View()), roster.slots, message, ephemeral)
    {
      ghost var before, w := noise.View(), Trust();
      response := noise.HandshakeRespond(roster.slots, message, ephemeral);
      if response.None? {
        NoiseAgreement.FailureLeavesNoSession(noise.crypto, before, roster.slots, message, ephemeral);
        assert Trust() == HandleHandshake(w, [], false);
      } else {
        NoiseAgreement.AnsweredMeansEnrolled(noise.crypto, before, roster.slots, message, ephemeral);
        sessionKey := roster.slots[noise.authSlot].key;
        Store.FindExact(roster.View(), sessionKey, noise.authSlot);
        assert Trust() == HandleHandshake(w, sessionKey, true);
      }
    }

    /** The encrypted branch: decrypt, run the command, and seal the receipt it asks for. */
    method HandleEncryptedFrame(data: Octets, o: Outside)
      returns (response: Option<Octets>, ghost code: Byte, ghost status: Status)
      requires Valid() && data != [] && data[0] == Noise.CMD_ENCRYPTED
      modifies this`radio, core, core.strokes, core.replay, roster, chip`log, chip.a, chip.b, noise
      ensures Valid()
      ensures var command := Transport.Opens(noise.crypto, old(noise.View()), data).1;
              && (command.None? ==> View() == old(View()))
              && (command.Some? ==>
                    |command.value| < TWO_16 && Effect(old(View()), View(), networked, now, command.value, o, code, status))
              && (noise.View(), response) ==
                 Transport.Reacts(noise.crypto, old(noise.View()), old(roster.slots), data, [], Due(command, networked, code))
      ensures response.Some? ==> |response.value| <= 54
    {
      hide FlashCommit.Boot, FlashCommit.Commit, Store.FindFrom, TypingStep, Noise.Respond, Effect;
      code, status := 0, ErrArgument;
      if |data| <= 1 { return None, code, status; }
      DecryptedShort(noise.crypto, noise.View(), data[1..]);
      var plaintext := noise.DecryptPacket(data[1..]);
      if plaintext.None? { return None, code, status; }
      var receipt, b, s := HandleAuthenticatedCommand(plaintext.value, o);
      code, status := b, s;
      response := None;
      if receipt {
        response := SealReceipt(b);
      }
    }

    method SealReceipt(code: Byte) returns (response: Option<Octets>)
      requires Noise.Laws(noise.crypto)
      modifies noise`sendNonce
      ensures Trust() == old(Trust())
      ensures (noise.View(), response) == Transport.SealReceipt(noise.crypto, old(noise.View()), code)
      ensures response.Some? ==> |response.value| <= 54
    {
      var ack := noise.EncryptTransportAck(code);
      if ack.None? { return None; }
      response := Some([Noise.CMD_ENCRYPTED] + ack.value);
    }

    /** `command_process_frame`: handshake frames reach the responder, encrypted frames the command
        they open to, and anything else, plaintext commands included, does nothing. Every call is one
        move of the transport model, for every session `l` the device may be in. */
    method CommandProcessFrame(data: Octets, ephemeral: Octets, o: Outside, ghost l: Transport.Link)
      returns (response: Option<Octets>, ghost code: Byte, ghost status: Status)
      requires Valid() && l.device == noise.View()
      modifies this`radio, this`sessionKey, core, core.strokes, core.replay, roster, chip`log, chip.a, chip.b, noise
      ensures Valid()
      ensures response.Some? ==> |response.value| <= 54
      ensures var command := Transport.Opens(noise.crypto, old(noise.View()), data).1;
              && (command.None? ==> View() == old(View()).(trust := old(Trust()).(session := Trust().session)))
              && (command.Some? ==>
                    |command.value| < TWO_16 && Effect(old(View()), View(), networked, now, command.value, o, code, status))
              && (noise.View(), response) ==
                 Transport.Reacts(noise.crypto, old(noise.View()), old(roster.slots), data, ephemeral,
                                  Due(command, networked, code))
              && (command.None? && !Transport.IsHandshake(data) ==> response == None && Trust() == old(Trust()))
      ensures !old(noise.ready) && !Transport.IsHandshake(data) ==>
                View() == old(View()) && noise.View() == old(noise.View()) && response == None
      ensures Transport.IsHandshake(data) ==> exists key, genuine :: Trust() == HandleHandshake(old(Trust()), key, genuine)
      ensures var command := Transport.Opens(noise.crypto, old(noise.View()), data).1;
              var after := Transport.Play(noise.crypto, l,
                Transport.ToDevice(data, old(roster.slots), ephemeral, Due(command, networked, code)));
              after.device == noise.View() && after.responses == l.responses + Transport.Listed(response)
    {
      hide FlashCommit.Boot, FlashCommit.Commit, Store.FindFrom, TypingStep, Noise.Respond, Effect, Noise.DecryptPacket;
      code, status := 0, ErrArgument;
      if !noise.ready && !Transport.IsHandshake(data) {
        NoiseWire.NoSession(noise.crypto, noise.View(), roster.slots, data, ephemeral, None);
      }
      if data == [] { return None, code, status; }
      if data[0] == Noise.CMD_NOISE {
        if |data| != 81 { return None, code, status; }
        response := HandleHandshakeFrame(data[1..], ephemeral);
        if response.Some? {
          response := Some([Noise.CMD_NOISE] + response.value);
        }
      } else if data[0] == Noise.CMD_ENCRYPTED {
        response, code, status := HandleEncryptedFrame(data, o);
      } else {
        return None, code, status;
      }
    }
  }
}

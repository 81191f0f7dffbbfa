/** The whole path: a text on the host becomes the same text on the target machine. */
module EndToEnd {
  import opened Bytes
  import opened Keymap
  import opened Compiler
  import opened CoreSpec
  import opened CoreRuns
  import opened CoreAnswers
  import opened Packets
  import Noise = NoiseIK
  import NoiseAgreement
  import Transport
  import BleFraming
  import TcpFraming
  import Firmware

  /** Taking strokes from the core until it has none left. */
  function Drain(c: Core, now: nat): (seq<Stroke>, Core)
    requires c.cursor <= c.count <= |c.strokes|
    decreases c.count - c.cursor
  {
    if c.state == Executing && c.cursor < c.count then
      var (c', _, stroke) := Next(c, now);
      var (rest, last) := Drain(c', now);
      ([stroke] + rest, last)
    else ([], Next(c, now).0)
  }

  lemma {:induction false} DrainEmitsAll(c: Core, now: nat)
    requires c.state == Executing && c.cursor <= c.count <= |c.strokes|
    ensures Drain(c, now) == (c.strokes[c.cursor..c.count], Terminated(c, Completed))
    decreases c.count - c.cursor
  {
    if c.cursor < c.count {
      var (c', _, stroke) := Next(c, now);
      assert c' == c.(strokes := c.strokes[c.cursor := NO_STROKE], cursor := c.cursor + 1);
      DrainEmitsAll(c', now);
      assert c'.strokes[c'.cursor..c'.count] == c.strokes[c.cursor + 1..c.count];
      assert [stroke] + c.strokes[c.cursor + 1..c.count] == c.strokes[c.cursor..c.count];
      assert Terminated(c', Completed) == Terminated(c, Completed);
    } else {
      assert c.strokes[c.cursor..c.count] == [];
    }
  }

  /** A job accepted by the core and confirmed in time types its text: the core hands out strokes
      that the target reads as the text's characters, then reports completion and is wiped. */
  lemma ConfirmedJobTypesItsText(c: Core, r: Request, confirmed: nat, typed: nat, compose: Compose)
    requires r.Readable() && Stage(c, r).1 == Ok
    requires Confirm(Stage(c, r).0, r.job, confirmed).1 == Ok
    ensures var started := Confirm(Stage(c, r).0, r.job, confirmed).0;
            && started.cursor <= started.count <= |started.strokes|
            && var (strokes, last) := Drain(started, typed);
               && Type(Host([], None), r.policy.layout, strokes, compose) == Host(Meaning(Text(r)), None)
               && last == Terminated(started, Completed)
  {
    StagedJob(c, r);
    var staged := Stage(c, r).0;
    var started := Confirm(staged, r.job, confirmed).0;
    var text := Text(r);
    assert started == staged.(state := Executing);
    DrainEmitsAll(started, typed);
    var strokes := started.strokes[0..started.count];
    assert strokes == CompiledOf(r) by {
      assert CompiledOf(r)[0..] == CompiledOf(r);
    }
    MeaningPreserved(text, r.policy, Host([], None), compose);
    assert [] + Meaning(text) == Meaning(text);
  }

  // ---- From the host's text to the target's ----

  /** A frame as both framings carry it: any reassembler puts its BLE fragments together to exactly it,
      and its TCP form parses to exactly it. */
  ghost predicate Framable(frame: seq<Byte>) {
    && BleFraming.FragmentsFrom(frame, 0, 0).Some?
    && (forall r: BleFraming.Reassembly ::
          BleFraming.AcceptAll(r, BleFraming.FragmentsFrom(frame, 0, 0).value) == (BleFraming.IDLE, [frame]))
    && TcpFraming.Parse(TcpFraming.Frame(frame)) == TcpFraming.Parsed([frame], [], false)
  }

  lemma FramesTravel(frame: seq<Byte>)
    requires 1 <= |frame| <= 1102
    ensures Framable(frame)
  {
    BleFraming.FragmentRoundTrip(BleFraming.IDLE, frame);
    forall r: BleFraming.Reassembly
      ensures BleFraming.AcceptAll(r, BleFraming.FragmentsFrom(frame, 0, 0).value) == (BleFraming.IDLE, [frame])
    {
      BleFraming.FragmentRoundTrip(r, frame);
    }
    TcpFraming.FrameParses(frame);
  }

  /** What the host asks for: a job, its policy as written into the packet, and its text. */
  datatype Order = Order(job: Entry, layout: nat, mode: nat, flags: nat, text: seq<Byte>) {
    function Stage(): Option<seq<Byte>> {
      StagePacket(job, layout, mode, flags, text)
    }

    function Confirm(): Option<seq<Byte>> {
      JobPacket(CMD_CONFIRM, job)
    }

    /** The request the device is to understand. */
    function Request(now: nat): Request
      requires layout < 256 && mode < 256 && flags < 256
    {
      CoreSpec.Request(job, Policy(Layout(layout), Mode(mode), flags), Some(text), |text|, now, MAX_TTL)
    }
  }

  /** The host can pack the order. */
  predicate Packable(order: Order) {
    order.Stage().Some? && |order.text| <= MAX_INPUT && order.layout < 256 && order.mode < 256 && order.flags < 256
  }

  lemma PackedAndRead(order: Order, core: Core, staged: nat, confirmed: nat)
    requires Packable(order)
    ensures order.Confirm().Some?
    ensures var p, q := order.Stage().value, order.Confirm().value;
            && |p| == 14 + |order.text| && |q| == 9
            && Firmware.TypingCommand(p) && Firmware.TypingCommand(q)
            && order.Request(staged).Readable()
            && Firmware.TypingStep(core, p, staged) == Stage(core, order.Request(staged))
            && Firmware.TypingStep(core, q, confirmed) == Confirm(core, order.job, confirmed)
  {
    hide Stage, Confirm;
    StageCodec(order.job, order.layout, order.mode, order.flags, order.text, staged);
    JobCodec(CMD_CONFIRM, order.job);
  }

  /** One command from its sealing to what the host makes of the answer: the device opens it, its core
      runs it at time `now`, and the receipt is the one that the core's status earns. */
  function Exchanged(c: Noise.Crypto, l: Transport.Link, core: Core, p: seq<Byte>, now: nat, networked: bool)
    : (Transport.Link, Core, Status)
    requires Firmware.TypingCommand(p) && |p| < TWO_16
  {
    var (after, status) := Firmware.TypingStep(core, p, now);
    var due := Firmware.Due(Some(p), networked, Firmware.StatusByte(status));
    var sent := Transport.Play(c, l, Transport.HostSends(p));
    var ran := Transport.Play(c, sent, Transport.ToDevice(Transport.NextFrame(c, l, p), [], [], due));
    var answer := if ran.responses == [] then [] else ran.responses[|ran.responses| - 1];
    (Transport.Play(c, ran, Transport.ToHost(answer)), after, status)
  }

  /** Over an undisturbed network a typing command crosses either framing, is executed, and the host
      accepts a receipt that carries the byte of exactly the status the core returned. */
  lemma ExchangeCarried(c: Noise.Crypto, o: NoiseAgreement.Opening, l: Transport.Link, core: Core, p: seq<Byte>, now: nat,
                        networked: bool)
    requires Noise.Laws(c) && Transport.Sound(c, o, l) && Transport.InStep(l) && |p| <= Noise.MAX_PLAINTEXT
    requires Firmware.TypingCommand(p)
    ensures Framable(Transport.NextFrame(c, l, p)) && Transport.Opens(c, l.device, Transport.NextFrame(c, l, p)).1 == Some(p)
    ensures var (l1, after, status) := Exchanged(c, l, core, p, now, networked);
            && (after, status) == Firmware.TypingStep(core, p, now)
            && Transport.Sound(c, o, l1) && l1.live && l1.host.keys == l.host.keys
            && l1.executed == l.executed + [p]
            && l1.accepted == l.accepted + [Transport.Receipt(Firmware.StatusByte(status))]
            && l1.device.receiveNonce == l1.host.sendNonce == l.host.sendNonce + 1
            && l1.host.receiveNonce == l1.device.sendNonce == l.device.sendNonce + 1
  {
    hide Transport.Sound, TcpFraming.Parse, BleFraming.FragmentsFrom, Noise.Laws, Framable, Firmware.TypingStep,
      Transport.Play, Transport.Opens, Transport.NextFrame, Transport.NextReceipt;
    Transport.CommandCarried(c, o, l, p, [], [], Firmware.StatusByte(Firmware.TypingStep(core, p, now).1));
    FramesTravel(Transport.NextFrame(c, l, p));
  }

  /** What the host reads in the accepted receipt of a command. */
  predicate Returned(receipt: seq<Byte>) {
    receipt == [80, 66, 79, 75, 49, 0]
  }

  /** A sealed stage packet of at most 1024 text bytes crosses either framing and reaches the device's
      core, whatever state that is in, as the request the host built. */
  lemma PacketReachesCore(c: Noise.Crypto, o: NoiseAgreement.Opening, l: Transport.Link, order: Order, core: Core, now: nat)
    requires Noise.Laws(c) && Transport.Sound(c, o, l) && Transport.InStep(l) && Packable(order)
    ensures var p := order.Stage().value; var frame := Transport.NextFrame(c, l, p);
            && Framable(frame) && Transport.Opens(c, l.device, frame).1 == Some(p)
            && |p| < TWO_16 && Firmware.TypingCommand(p) && order.Request(now).Readable()
            && Firmware.TypingStep(core, p, now) == Stage(core, order.Request(now))
  {
    hide Transport.Sound, Framable, Exchanged, Transport.NextFrame, Transport.Opens;
    PackedAndRead(order, core, now, now);
    ExchangeCarried(c, o, l, core, order.Stage().value, now, true);
  }

  /** The link and the core after the stage and the confirm packet, with the two statuses. */
  function Ordered(c: Noise.Crypto, l: Transport.Link, core: Core, order: Order, staged: nat, confirmed: nat, networked: bool)
    : (Transport.Link, Core, Status, Status)
    requires Packable(order)
  {
    PackedAndRead(order, core, staged, confirmed);
    var (l1, one, s) := Exchanged(c, l, core, order.Stage().value, staged, networked);
    var (l2, two, t) := Exchanged(c, l1, one, order.Confirm().value, confirmed, networked);
    (l2, two, s, t)
  }

  /** The whole path. An order that the core can accept, whose confirmation comes within its lifetime,
      is sealed, framed, carried, opened, staged, confirmed and typed: both commands cross either
      framing unchanged and are executed in order, the receipts for the statuses the core returned are
      accepted by the host as status 0, and the strokes the device then hands out are read by the target
      as exactly the text. */
  lemma TextIsTyped(c: Noise.Crypto, o: NoiseAgreement.Opening, l: Transport.Link, order: Order, core: Core,
                    staged: nat, confirmed: nat, typed: nat, networked: bool, compose: Compose)
    requires Noise.Laws(c) && Transport.Sound(c, o, l) && Transport.InStep(l) && Packable(order)
    requires l.host.sendNonce + 1 < Noise.NONCE_END && l.device.sendNonce + 1 < Noise.NONCE_END
    requires !core.Busy() && Proper(order.Request(staged)) && TextAllowed(order.Request(staged))
    requires order.job !in core.ledger && |core.ledger| != LEDGER_CAPACITY
    requires (confirmed - staged) % TWO_32 < 15000
    ensures var (after, ready, s, t) := Ordered(c, l, core, order, staged, confirmed, networked);
            var p, q := order.Stage().value, order.Confirm();
            && q.Some? && Framable(Transport.NextFrame(c, l, p))
            && after.executed == l.executed + [p, q.value] && s == t == Ok
            && |after.accepted| == |l.accepted| + 2 && l.accepted <= after.accepted
            && Returned(after.accepted[|l.accepted|]) && Returned(after.accepted[|l.accepted| + 1])
            && ready.cursor <= ready.count <= |ready.strokes|
            && var (strokes, last) := Drain(ready, typed);
               && Type(Host([], None), Layout(order.layout), strokes, compose) == Host(Meaning(order.text), None)
               && last == Terminated(ready, Completed)
  {
    hide Transport.Sound, Compile, Type, Drain, Meaning, TextAllowed, Transport.Play, Framable, Exchanged, Firmware.TypingStep,
      Transport.NextFrame, Transport.Opens, Firmware.StatusByte;
    PackedAndRead(order, core, staged, confirmed);
    OrderTyped(order, core, staged, confirmed, typed, compose);
    var p, q := order.Stage().value, order.Confirm().value;
    ExchangeCarried(c, o, l, core, p, staged, networked);
    var (l1, one, s) := Exchanged(c, l, core, p, staged, networked);
    PackedAndRead(order, one, staged, confirmed);
    ExchangeCarried(c, o, l1, one, q, confirmed, networked);
    OkReturns();
    TwoMore(l.executed, p, q);
    TwoMore(l.accepted, Transport.Receipt(0), Transport.Receipt(0));
  }

  lemma OkReturns()
    ensures Firmware.StatusByte(Ok) == 0 && Returned(Transport.Receipt(0))
  {
  }

  lemma TwoMore(a: seq<seq<Byte>>, x: seq<Byte>, y: seq<Byte>)
    ensures var b := a + [x] + [y]; b == a + [x, y] && a <= b && b[|a|] == x && b[|a| + 1] == y
  {
  }

  lemma OrderTyped(order: Order, core: Core, staged: nat, confirmed: nat, typed: nat, compose: Compose)
    requires Packable(order) && !core.Busy() && Proper(order.Request(staged)) && TextAllowed(order.Request(staged))
    requires order.job !in core.ledger && |core.ledger| != LEDGER_CAPACITY
    requires (confirmed - staged) % TWO_32 < 15000
    ensures var (one, s) := Stage(core, order.Request(staged)); var (ready, t) := Confirm(one, order.job, confirmed);
            && s == t == Ok && ready.cursor <= ready.count <= |ready.strokes|
            && var (strokes, last) := Drain(ready, typed);
               && Type(Host([], None), Layout(order.layout), strokes, compose) == Host(Meaning(order.text), None)
               && last == Terminated(ready, Completed)
  {
    hide Compile, Type, Drain, Meaning, TextAllowed;
    var r := order.Request(staged);
    assert Text(r) == order.text;
    StageAcceptsExactly(core, r);
    StagedJob(core, r);
    ConfirmedJobTypesItsText(core, r, confirmed, typed, compose);
  }

  // ---- Cancelling ----

  /** A cancel packet starts with command 3, crosses like any other, and takes a core that holds the
      named job, staged or executing, to a cancelled one with nothing left of the job, which the host
      learns as status 0. */
  lemma CancelEndsJob(c: Noise.Crypto, o: NoiseAgreement.Opening, l: Transport.Link, job: Entry, core: Core, now: nat,
                      networked: bool)
    requires Noise.Laws(c) && Transport.Sound(c, o, l) && Transport.InStep(l)
    requires job.owner <= 0xffff_ffff && job.id <= 0xffff_ffff
    ensures var packet := JobPacket(CMD_CANCEL, job);
            && packet.Some? && |packet.value| == 9 && packet.value[0] == 3 && Firmware.TypingCommand(packet.value)
            && Firmware.TypingStep(core, packet.value, now) == Cancel(core, job)
            && var (after, left, status) := Exchanged(c, l, core, packet.value, now, networked);
               && Framable(Transport.NextFrame(c, l, packet.value))
               && (Held(core) && core.job == job ==>
                     && status == Ok && Bare(left, Cancelled, core.ledger)
                     && after.accepted == l.accepted + [[80, 66, 79, 75, 49, 0]])
  {
    hide Transport.Sound, Framable, Exchanged, Transport.NextFrame, Transport.Opens;
    JobBytes(CMD_CANCEL, job);
    JobCodec(CMD_CANCEL, job);
    CancelAnswers(core, job);
    var p := JobPacket(CMD_CANCEL, job).value;
    ExchangeCarried(c, o, l, core, p, now, networked);
    OkReturns();
  }
}

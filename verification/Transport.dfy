/** One session over a network that may drop, duplicate, reorder and alter frames, from the moment the
    device opens it. A handshake frame on any transport takes the device out of the session. */
module Transport {
  import opened Bytes
  import opened ControllerStore
  import opened NoiseIK
  import opened NoiseAgreement

  // ---- What a frame does to the device ----

  /** A frame that reaches the responder; it resets the session before it looks at anything else. */
  predicate IsHandshake(frame: Octets) {
    |frame| == 81 && frame[0] == CMD_NOISE
  }

  /** The decrypting half of the encrypted branch of `command_process_frame`. */
  function Opens(c: Crypto, d: Device, frame: Octets): (Device, Option<Octets>) {
    if |frame| <= 1 || frame[0] != CMD_ENCRYPTED then (d, None) else DecryptPacket(c, d, frame[1..])
  }

  /** A sealed receipt, unless the device's nonces are used up. */
  function SealReceipt(c: Crypto, d: Device, code: Byte): (Device, Option<Octets>) {
    match EncryptAck(c, d, code)
    case (next, None) => (next, None)
    case (next, Some(packet)) => (next, Some([CMD_ENCRYPTED] + packet))
  }

  /** `command_process_frame` as far as the session goes: the device afterwards and its response.
      `due` is the status byte of the receipt that the command in the frame earns, if any. */
  function Reacts(c: Crypto, d: Device, slots: seq<Slot>, frame: Octets, ephemeral: Octets, due: Option<Byte>)
    : (Device, Option<Octets>)
  {
    if IsHandshake(frame) then
      match Respond(c, d, slots, frame[1..], ephemeral)
      case (next, None) => (next, None)
      case (next, Some(r)) => (next, Some([CMD_NOISE] + r))
    else
      match Opens(c, d, frame)
      case (next, None) => (next, None)
      case (next, Some(_)) => if due.None? then (next, None) else SealReceipt(c, next, due.value)
  }

  // ---- A session and its history ----

  /** Both parties; whether the device is still in this session; everything each party has sealed in
      it (as plaintext and as frame) and accepted in it; and every response the device ever gave. */
  datatype Link = Link(
    host: Host, device: Device, live: bool,
    sealed: seq<Octets>, frames: seq<Octets>, executed: seq<Octets>,
    statuses: seq<Byte>, receipts: seq<Octets>, accepted: seq<Octets>,
    responses: seq<Octets>)

  datatype Move =
    | HostCompletes(response: Octets)
    | HostSends(plaintext: Octets)
    | ToHost(frame: Octets)
    | ToDevice(frame: Octets, slots: seq<Slot>, ephemeral: Octets, due: Option<Byte>)

  /** The device has just answered; the host is waiting for the response. */
  ghost function Begun(c: Crypto, o: Opening): Link
    requires Opened(c, o)
  {
    Link(Asking(c, o), Session(c, o), true, [], [], [], [], [], [], [])
  }

  function Listed<T>(x: Option<T>): seq<T> {
    match x
    case None => []
    case Some(v) => [v]
  }

  /** The device handles a frame. What it executes after it has left the session is not this
      session's business. */
  function Delivers(c: Crypto, l: Link, frame: Octets, slots: seq<Slot>, ephemeral: Octets, due: Option<Byte>): Link {
    var (device, response) := Reacts(c, l.device, slots, frame, ephemeral, due);
    var after := l.(device := device, responses := l.responses + Listed(response));
    if IsHandshake(frame) then after.(live := false)
    else if !l.live then after
    else
      after.(executed := l.executed + Listed(Opens(c, l.device, frame).1),
             statuses := if response.Some? then l.statuses + Listed(due) else l.statuses,
             receipts := l.receipts + Listed(response))
  }

  /** The host reads a response once; an object whose `complete_handshake` raised is discarded. */
  function Completes(c: Crypto, l: Link, response: Octets): Link {
    if l.host.keys.Some? then l
    else
      match Complete(c, l.host, response)
      case None => l.(host := l.host.(ephemeral := None))
      case Some(i) => l.(host := i)
  }

  function Play(c: Crypto, l: Link, m: Move): Link {
    match m
    case HostCompletes(response) => Completes(c, l, response)
    case HostSends(p) =>
      (match EncryptPacket(c, l.host, p)
       case None => l
       case Some((i, frame)) => l.(host := i, sealed := l.sealed + [p], frames := l.frames + [frame]))
    case ToHost(frame) =>
      var (i, plaintext) := VerifyAck(c, l.host, frame);
      l.(host := i, accepted := l.accepted + Listed(plaintext))
    case ToDevice(frame, slots, ephemeral, due) => Delivers(c, l, frame, slots, ephemeral, due)
  }

  /** The network may deliver any bytes. Of the cipher and the hash it is trusted that bytes which open
      under this session's keys were sealed in this session by the other party, and that the response
      the host reads has the integrity that agreement rests on. */
  ghost predicate Deliverable(c: Crypto, o: Opening, l: Link, m: Move)
    requires Opened(c, o)
  {
    match m
    case HostCompletes(response) => Integrity(c, o, response)
    case HostSends(_) => true
    case ToHost(frame) => VerifyAck(c, l.host, frame).1.Some? ==> frame in l.receipts
    case ToDevice(frame, _, _, _) => l.live && Opens(c, l.device, frame).1.Some? ==> frame in l.frames
  }

  // ---- What always holds ----

  function HostFrame(c: Crypto, key: Octets, n: nat, p: Octets): Octets {
    [CMD_ENCRYPTED] + LeBytes(n, 8) + c.seal(key, n, [], p)
  }

  function Receipt(status: Byte): Octets {
    TRANSPORT_ACK + [status]
  }

  ghost predicate Framed(c: Crypto, key: Octets, plain: seq<Octets>, frames: seq<Octets>) {
    |plain| == |frames| <= NONCE_END + 1 &&
    forall j | 0 <= j < |plain| :: frames[j] == HostFrame(c, key, j, plain[j])
  }

  function Receipts(statuses: seq<Byte>): (r: seq<Octets>)
    ensures |r| == |statuses| && forall j | 0 <= j < |r| :: r[j] == Receipt(statuses[j])
  {
    seq(|statuses|, j requires 0 <= j < |statuses| => Receipt(statuses[j]))
  }

  /** Prefixes in both directions, and the order of the four counts. */
  ghost predicate InOrder(l: Link) {
    && l.executed <= l.sealed
    && l.accepted <= Receipts(l.statuses)
    && |l.accepted| <= |l.statuses| <= |l.executed| <= |l.sealed|
  }

  /** The order of the four nonces as the two programs hold them. */
  predicate NonceChain(l: Link) {
    l.host.receiveNonce <= l.device.sendNonce <= l.device.receiveNonce <= l.host.sendNonce
  }

  /** The keys of the session, as the device derived them. */
  ghost function Keys(c: Crypto, o: Opening): (Octets, Octets)
    requires Opened(c, o)
  {
    (Session(c, o).receiveKey, Session(c, o).sendKey)
  }

  ghost predicate HostSound(c: Crypto, o: Opening, l: Link)
    requires Opened(c, o)
  {
    && |l.sealed| == l.host.sendNonce && |l.accepted| == l.host.receiveNonce
    && if l.host.keys.Some? then l.host.keys.value == Keys(c, o)
       else l.sealed == [] && l.accepted == [] && (l.host == Asking(c, o) || l.host.ephemeral.None?)
  }

  ghost predicate DeviceSound(c: Crypto, o: Opening, l: Link)
    requires Opened(c, o)
  {
    l.live ==>
      && l.device.ready && (l.device.receiveKey, l.device.sendKey) == Keys(c, o)
      && |l.executed| == l.device.receiveNonce && |l.statuses| == l.device.sendNonce
  }

  ghost predicate Sound(c: Crypto, o: Opening, l: Link) {
    && Opened(c, o) && Hosted(c, o)
    && HostSound(c, o, l) && DeviceSound(c, o, l)
    && Framed(c, Keys(c, o).0, l.sealed, l.frames)
    && Framed(c, Keys(c, o).1, Receipts(l.statuses), l.receipts)
    && InOrder(l)
  }

  lemma BegunSound(c: Crypto, o: Opening)
    requires Laws(c) && Opened(c, o) && Hosted(c, o)
    ensures Sound(c, o, Begun(c, o))
  {
    assert Receipts([]) == [];
  }

  /** A frame sealed under number `j` is opened only under number `j`, and yields its plaintext. */
  lemma OpensAsSealed(c: Crypto, key: Octets, plain: seq<Octets>, frames: seq<Octets>, frame: Octets, n: nat)
    requires Laws(c) && Framed(c, key, plain, frames) && frame in frames
    requires |frame| >= 9 && LeValue(frame[1..9]) == n
    ensures n < |plain| && c.open(key, n, [], frame[9..]) == Some(plain[n])
  {
    var j :| 0 <= j < |frames| && frames[j] == frame;
    PowValues();
    LeRoundTrip(j, 8);
    assert frame[1..9] == LeBytes(j, 8);
    assert frame[9..] == c.seal(key, j, [], plain[j]);
  }

  lemma HostCompletesKeeps(c: Crypto, o: Opening, l: Link, response: Octets)
    requires Laws(c) && Sound(c, o, l) && Integrity(c, o, response)
    ensures Sound(c, o, Completes(c, l, response))
  {
    hide Integrity, Framed, Respond, Begin;
    if l.host == Asking(c, o) && l.host.keys.None? && Complete(c, l.host, response).Some? {
      HandshakeAgreement(c, o, response);
    }
  }

  lemma HostSendsKeeps(c: Crypto, o: Opening, l: Link, p: Octets)
    requires Laws(c) && Sound(c, o, l)
    ensures Sound(c, o, Play(c, l, HostSends(p)))
  {
    hide Opened, Hosted, Keys, Asking, InOrder, Receipts;
    var after := Play(c, l, HostSends(p));
    SentInOrder(l, after);
  }

  lemma SentInOrder(l: Link, after: Link)
    requires InOrder(l) && l.sealed <= after.sealed
    requires after.executed == l.executed && after.statuses == l.statuses && after.accepted == l.accepted
    ensures InOrder(after)
  {
  }

  lemma OpensInTurn(c: Crypto, o: Opening, l: Link, frame: Octets)
    requires Laws(c) && Sound(c, o, l) && l.live && Opens(c, l.device, frame).1.Some? && frame in l.frames
    ensures l.device.receiveNonce < |l.sealed|
    ensures Opens(c, l.device, frame).1 == Some(l.sealed[l.device.receiveNonce])
  {
    hide Opened, Hosted, InOrder;
    assert frame[1..][..8] == frame[1..9] && frame[1..][8..] == frame[9..];
    OpensAsSealed(c, l.device.receiveKey, l.sealed, l.frames, frame, l.device.receiveNonce);
  }

  /** The receipt of an executed command is the next of the device's sealed frames. */
  lemma ReceiptFramed(c: Crypto, d: Device, statuses: seq<Byte>, receipts: seq<Octets>, code: Byte)
    requires Laws(c) && Framed(c, d.sendKey, Receipts(statuses), receipts) && |statuses| == d.sendNonce <= NONCE_END
    requires SealReceipt(c, d, code).1.Some?
    ensures Framed(c, d.sendKey, Receipts(statuses + [code]), receipts + [SealReceipt(c, d, code).1.value])
    ensures Receipts(statuses) <= Receipts(statuses + [code])
  {
    var n := d.sendNonce;
    var sealed := c.seal(d.sendKey, n, [], Receipt(code));
    assert [CMD_ENCRYPTED] + (LeBytes(n, 8) + sealed) == [CMD_ENCRYPTED] + LeBytes(n, 8) + sealed;
    assert SealReceipt(c, d, code).1.value == HostFrame(c, d.sendKey, n, Receipt(code));
    assert Receipts(statuses + [code]) == Receipts(statuses) + [Receipt(code)];
  }

  lemma FramedCount(c: Crypto, key: Octets, plain: seq<Octets>, frames: seq<Octets>)
    requires Framed(c, key, plain, frames)
    ensures |plain| <= NONCE_END + 1
  {
  }

  lemma ExecutesKeeps(c: Crypto, o: Opening, l: Link, frame: Octets, slots: seq<Slot>, ephemeral: Octets, due: Option<Byte>)
    requires Laws(c) && Sound(c, o, l) && l.live && !IsHandshake(frame)
    requires Opens(c, l.device, frame).1.Some? && frame in l.frames
    ensures Sound(c, o, Delivers(c, l, frame, slots, ephemeral, due))
  {
    hide Opened, Hosted, Framed, Receipts, Asking, Respond;
    OpensInTurn(c, o, l, frame);
    FramedCount(c, Keys(c, o).0, l.sealed, l.frames);
    var next := Opens(c, l.device, frame).0;
    assert l.executed + [l.sealed[|l.executed|]] <= l.sealed;
    if due.Some? && SealReceipt(c, next, due.value).1.Some? {
      ReceiptFramed(c, next, l.statuses, l.receipts, due.value);
    } else {
      assert l.statuses + [] == l.statuses && l.receipts + [] == l.receipts;
    }
  }

  lemma ToDeviceKeeps(c: Crypto, o: Opening, l: Link, frame: Octets, slots: seq<Slot>, ephemeral: Octets, due: Option<Byte>)
    requires Laws(c) && Sound(c, o, l) && Deliverable(c, o, l, ToDevice(frame, slots, ephemeral, due))
    ensures Sound(c, o, Delivers(c, l, frame, slots, ephemeral, due))
  {
    hide Opened, Hosted, Framed, Receipts, Asking, Respond;
    if l.live && !IsHandshake(frame) {
      if Opens(c, l.device, frame).1.Some? {
        ExecutesKeeps(c, o, l, frame, slots, ephemeral, due);
      } else {
        assert Opens(c, l.device, frame).0 == l.device;
        assert l.executed + [] == l.executed && l.statuses + [] == l.statuses && l.receipts + [] == l.receipts;
      }
    }
  }

  /** What the host accepts is the receipt of the command it has counted up to; `verify_transport_ack`
      returns, rather than raises, exactly when that command's status was 0. */
  lemma AcceptedInTurn(c: Crypto, o: Opening, l: Link, frame: Octets)
    requires Laws(c) && Sound(c, o, l) && VerifyAck(c, l.host, frame).1.Some? && frame in l.receipts
    ensures l.host.receiveNonce < |l.statuses|
    ensures VerifyAck(c, l.host, frame).1 == Some(Receipt(l.statuses[l.host.receiveNonce]))
    ensures VerifyAck(c, l.host, frame).1 == Some(Receipt(0)) <==> l.statuses[l.host.receiveNonce] == 0
  {
    hide Opened, Hosted, InOrder;
    OpensAsSealed(c, Keys(c, o).1, Receipts(l.statuses), l.receipts, frame, l.host.receiveNonce);
    assert Receipt(l.statuses[l.host.receiveNonce])[5] == l.statuses[l.host.receiveNonce] && Receipt(0)[5] == 0;
  }

  lemma ToHostKeeps(c: Crypto, o: Opening, l: Link, frame: Octets)
    requires Laws(c) && Sound(c, o, l) && Deliverable(c, o, l, ToHost(frame))
    ensures Sound(c, o, Play(c, l, ToHost(frame)))
  {
    hide Opened, Hosted, Framed;
    if VerifyAck(c, l.host, frame).1.Some? {
      AcceptedInTurn(c, o, l, frame);
      var n := l.host.receiveNonce;
      assert l.accepted + [Receipts(l.statuses)[n]] <= Receipts(l.statuses);
    }
  }

  lemma PlayKeeps(c: Crypto, o: Opening, l: Link, m: Move)
    requires Laws(c) && Sound(c, o, l) && Deliverable(c, o, l, m)
    ensures Sound(c, o, Play(c, l, m))
  {
    match m
    case HostCompletes(response) => HostCompletesKeeps(c, o, l, response);
    case HostSends(p) => HostSendsKeeps(c, o, l, p);
    case ToHost(frame) => ToHostKeeps(c, o, l, frame);
    case ToDevice(frame, slots, ephemeral, due) => ToDeviceKeeps(c, o, l, frame, slots, ephemeral, due);
  }

  // ---- Whole runs ----

  ghost predicate AllDeliverable(c: Crypto, o: Opening, l: Link, moves: seq<Move>)
    requires Opened(c, o)
    decreases |moves|
  {
    moves == [] || (Deliverable(c, o, l, moves[0]) && AllDeliverable(c, o, Play(c, l, moves[0]), moves[1..]))
  }

  function PlayAll(c: Crypto, l: Link, moves: seq<Move>): Link
    decreases |moves|
  {
    if moves == [] then l else PlayAll(c, Play(c, l, moves[0]), moves[1..])
  }

  /** A delivery that takes the device out of its session. */
  predicate Takeover(m: Move) {
    m.ToDevice? && IsHandshake(m.frame)
  }

  predicate Undisturbed(moves: seq<Move>) {
    forall k | 0 <= k < |moves| :: !Takeover(moves[k])
  }

  lemma {:induction false} PlayAllKeeps(c: Crypto, o: Opening, l: Link, moves: seq<Move>)
    requires Laws(c) && Sound(c, o, l) && AllDeliverable(c, o, l, moves)
    ensures Sound(c, o, PlayAll(c, l, moves))
    ensures PlayAll(c, l, moves).live <==> l.live && Undisturbed(moves)
    decreases |moves|
  {
    if moves != [] {
      PlayKeeps(c, o, l, moves[0]);
      PlayAllKeeps(c, o, Play(c, l, moves[0]), moves[1..]);
      assert Play(c, l, moves[0]).live <==> l.live && !Takeover(moves[0]);
      assert Undisturbed(moves) <==> !Takeover(moves[0]) && Undisturbed(moves[1..]) by {
        assert forall k | 1 <= k < |moves| :: moves[k] == moves[1..][k - 1];
      }
    }
  }

  /** In-order transport: from the moment a device has answered a host, whatever the network does,
      handshakes of other parties included: the commands executed in the session are a prefix of those
      the host sealed, the receipts the host accepted are a prefix of those the device sealed, and no
      party is ahead of the other. While no handshake frame has been delivered since, the four nonces
      say so too: host.receive <= device.send <= device.receive <= host.send. */
  lemma EverySessionIsInOrder(c: Crypto, o: Opening, moves: seq<Move>)
    requires Laws(c) && Opened(c, o) && Hosted(c, o) && AllDeliverable(c, o, Begun(c, o), moves)
    ensures var l := PlayAll(c, Begun(c, o), moves);
            && InOrder(l)
            && (Undisturbed(moves) ==> NonceChain(l))
            && (l.host.keys.Some? ==> l.host.keys.value == Keys(c, o))
  {
    BegunSound(c, o);
    PlayAllKeeps(c, o, Begun(c, o), moves);
  }

  // ---- Takeover ----

  lemma RespondZeroes(c: Crypto, d: Device, slots: seq<Slot>, message: Octets, ephemeral: Octets)
    requires |message| == 80
    ensures var d' := Respond(c, d, slots, message, ephemeral).0; d'.receiveNonce == d'.sendNonce == 0
  {
  }

  /** What one handshake frame does to the nonce chain, whether or not it is answered: the chain
      survives exactly when the host has accepted no receipt yet. */
  lemma TakeoverKeepsChainIff(c: Crypto, l: Link, frame: Octets, slots: seq<Slot>, ephemeral: Octets, due: Option<Byte>)
    requires IsHandshake(frame)
    ensures NonceChain(Delivers(c, l, frame, slots, ephemeral, due)) <==> l.host.receiveNonce == 0
  {
    RespondZeroes(c, l.device, slots, frame[1..], ephemeral);
  }

  /** Over a network that loses nothing, the next command of at most 1038 bytes is executed. */
  lemma NextFrameIsExecuted(c: Crypto, o: Opening, l: Link, p: Octets)
    requires Laws(c) && Sound(c, o, l) && l.live && l.host.keys.Some? && |p| <= MAX_PLAINTEXT
    requires l.device.receiveNonce == l.host.sendNonce < NONCE_END
    ensures EncryptPacket(c, l.host, p).Some?
    ensures var frame := EncryptPacket(c, l.host, p).value.1;
            |frame| == 25 + |p| && frame[0] == CMD_ENCRYPTED && Opens(c, l.device, frame).1 == Some(p)
  {
    hide Opened, Hosted, Framed, InOrder;
    var frame := EncryptPacket(c, l.host, p).value.1;
    var n := l.host.sendNonce;
    PowValues();
    LeRoundTrip(n, 8);
    assert frame[1..][..8] == LeBytes(n, 8);
    assert frame[1..][8..] == c.seal(l.device.receiveKey, n, [], p);
  }

  /** Nothing is on the way between the parties, and neither has run out of nonces. */
  predicate InStep(l: Link) {
    && l.live && l.host.keys.Some?
    && l.device.receiveNonce == l.host.sendNonce < NONCE_END
    && l.host.receiveNonce == l.device.sendNonce < NONCE_END
  }

  /** The frame the host would send now, and the receipt the device would. */
  function NextFrame(c: Crypto, l: Link, p: Octets): Octets {
    match EncryptPacket(c, l.host, p)
    case None => []
    case Some((_, frame)) => frame
  }

  function NextReceipt(c: Crypto, l: Link, code: Byte): Octets {
    match SealReceipt(c, l.device, code)
    case (_, None) => []
    case (_, Some(frame)) => frame
  }

  lemma NextReceiptIsAccepted(c: Crypto, o: Opening, l: Link, i: Host, code: Byte)
    requires Laws(c) && Sound(c, o, l) && InStep(l)
    requires i.keys == l.host.keys && i.receiveNonce == l.host.receiveNonce
    ensures SealReceipt(c, l.device, code).1.Some?
    ensures VerifyAck(c, i, NextReceipt(c, l, code)) == (i.(receiveNonce := i.receiveNonce + 1), Some(Receipt(code)))
  {
    hide Opened, Hosted, Framed, InOrder;
    var frame := NextReceipt(c, l, code);
    var n := l.device.sendNonce;
    PowValues();
    LeRoundTrip(n, 8);
    assert frame[1..9] == LeBytes(n, 8);
    assert frame[9..] == c.seal(l.device.sendKey, n, [], Receipt(code));
  }

  /** One command over an undisturbed network: sent, executed, answered, and its receipt accepted,
      with the session ready for the next. */
  lemma CommandCarried(c: Crypto, o: Opening, l: Link, p: Octets, slots: seq<Slot>, e: Octets, code: Byte)
    requires Laws(c) && Sound(c, o, l) && InStep(l) && |p| <= MAX_PLAINTEXT
    ensures var sent := Play(c, l, HostSends(p)); var frame := NextFrame(c, l, p);
            && Sound(c, o, sent) && sent.frames == l.frames + [frame] && |frame| == 25 + |p|
            && sent.device == l.device && Opens(c, l.device, frame).1 == Some(p)
            && var ran := Play(c, sent, ToDevice(frame, slots, e, Some(code))); var receipt := NextReceipt(c, l, code);
               && Sound(c, o, ran) && ran.executed == l.executed + [p] && ran.receipts == l.receipts + [receipt]
                  && ran.responses == l.responses + [receipt]
               && var done := Play(c, ran, ToHost(receipt));
                  && Sound(c, o, done) && done.live && done.host.keys == l.host.keys
                  && done.executed == l.executed + [p] && done.accepted == l.accepted + [Receipt(code)]
                  && done.device.receiveNonce == done.host.sendNonce == l.host.sendNonce + 1
                  && done.host.receiveNonce == done.device.sendNonce == l.device.sendNonce + 1
  {
    hide Opened, Hosted, Framed, InOrder, HostSound, Respond, SealReceipt, VerifyAck;
    var frame, receipt := NextFrame(c, l, p), NextReceipt(c, l, code);
    NextFrameIsExecuted(c, o, l, p);
    HostSendsKeeps(c, o, l, p);
    var sent := Play(c, l, HostSends(p));
    ToDeviceKeeps(c, o, sent, frame, slots, e, Some(code));
    var ran := Play(c, sent, ToDevice(frame, slots, e, Some(code)));
    NextReceiptIsAccepted(c, o, l, ran.host, code);
    SealsSame(c, l.device, Opens(c, l.device, frame).0, code);
    ToHostKeeps(c, o, ran, receipt);
  }

  lemma SealsSame(c: Crypto, d: Device, opened_: Device, code: Byte)
    requires opened_ == d.(receiveNonce := opened_.receiveNonce)
    ensures SealReceipt(c, opened_, code).1 == SealReceipt(c, d, code).1
    ensures SealReceipt(c, d, code).1.Some? ==> SealReceipt(c, opened_, code).0 == opened_.(sendNonce := d.sendNonce + 1)
  {
  }

  // ---- The failing run ----

  /** The host completes, one command is executed and its receipt accepted, and then anyone delivers
      81 bytes that look like a handshake. */
  ghost function TakenOver(c: Crypto, o: Opening, p: Octets, code: Byte, frame: Octets, slots: seq<Slot>, e: Octets): seq<Move>
    requires Opened(c, o)
  {
    var ready := Play(c, Begun(c, o), HostCompletes(Told(c, o)));
    [HostCompletes(Told(c, o)), HostSends(p), ToDevice(NextFrame(c, ready, p), [], [], Some(code)),
     ToHost(NextReceipt(c, ready, code)), ToDevice(frame, slots, e, None)]
  }

  /** A host that reads the device's own response is in step with it. */
  lemma ReadyInStep(c: Crypto, o: Opening)
    requires Laws(c) && Opened(c, o) && Hosted(c, o) && Integrity(c, o, Told(c, o))
    ensures var ready := Play(c, Begun(c, o), HostCompletes(Told(c, o))); Sound(c, o, ready) && InStep(ready)
    ensures Play(c, Begun(c, o), HostCompletes(Told(c, o))).host.receiveNonce == 0
  {
    hide Integrity, Respond, Begin, Framed;
    BegunSound(c, o);
    HandshakeAgreement(c, o, Told(c, o));
    HostCompletesKeeps(c, o, Begun(c, o), Told(c, o));
  }

  /** Beyond that point the chain does fail: after one accepted receipt, every handshake frame,
      answered or not, leaves host.receive > device.send. */
  lemma ChainBroken(c: Crypto, o: Opening, p: Octets, code: Byte, frame: Octets, slots: seq<Slot>, e: Octets)
    requires Laws(c) && Opened(c, o) && Hosted(c, o) && Integrity(c, o, Told(c, o)) && |p| <= MAX_PLAINTEXT
    requires IsHandshake(frame)
    ensures AllDeliverable(c, o, Begun(c, o), TakenOver(c, o, p, code, frame, slots, e))
    ensures !NonceChain(PlayAll(c, Begun(c, o), TakenOver(c, o, p, code, frame, slots, e)))
  {
    hide Integrity, Respond, Begin, Framed, Sound, AllDeliverable, PlayAll;
    ReadyInStep(c, o);
    var moves := TakenOver(c, o, p, code, frame, slots, e);
    var l0 := Begun(c, o);
    var l1 := Play(c, l0, moves[0]);
    CommandCarried(c, o, l1, p, [], [], code);
    var l2 := Play(c, l1, moves[1]);
    var l3 := Play(c, l2, moves[2]);
    var l4 := Play(c, l3, moves[3]);
    TakeoverKeepsChainIff(c, l4, frame, slots, e, None);
    FiveMoves(c, o, l0, moves);
  }

  lemma FiveMoves(c: Crypto, o: Opening, l: Link, m: seq<Move>)
    requires Opened(c, o) && |m| == 5 && Deliverable(c, o, l, m[0])
    requires Deliverable(c, o, Play(c, l, m[0]), m[1])
    requires Deliverable(c, o, Play(c, Play(c, l, m[0]), m[1]), m[2])
    requires Deliverable(c, o, Play(c, Play(c, Play(c, l, m[0]), m[1]), m[2]), m[3])
    requires Deliverable(c, o, Play(c, Play(c, Play(c, Play(c, l, m[0]), m[1]), m[2]), m[3]), m[4])
    ensures AllDeliverable(c, o, l, m)
    ensures PlayAll(c, l, m) == Play(c, Play(c, Play(c, Play(c, Play(c, l, m[0]), m[1]), m[2]), m[3]), m[4])
  {
    hide Opened, Deliverable, Play, AllDeliverable, PlayAll;
    var l1 := Play(c, l, m[0]);
    var l2 := Play(c, l1, m[1]);
    var l3 := Play(c, l2, m[2]);
    var l4 := Play(c, l3, m[3]);
    assert m[5..] == [];
    NoMoves(c, o, Play(c, l4, m[4]));
    From(c, o, l4, m, 4);
    From(c, o, l3, m, 3);
    From(c, o, l2, m, 2);
    From(c, o, l1, m, 1);
    From(c, o, l, m, 0);
    assert m[0..] == m;
  }

  lemma NoMoves(c: Crypto, o: Opening, l: Link)
    requires Opened(c, o)
    ensures AllDeliverable(c, o, l, []) && PlayAll(c, l, []) == l
  {
  }

  lemma From(c: Crypto, o: Opening, l: Link, m: seq<Move>, k: nat)
    requires Opened(c, o) && k < |m| && Deliverable(c, o, l, m[k]) && AllDeliverable(c, o, Play(c, l, m[k]), m[k + 1..])
    ensures AllDeliverable(c, o, l, m[k..]) && PlayAll(c, l, m[k..]) == PlayAll(c, Play(c, l, m[k]), m[k + 1..])
  {
    hide Play, Deliverable, Opened;
    assert m[k..][0] == m[k] && m[k..][1..] == m[k + 1..];
  }
}

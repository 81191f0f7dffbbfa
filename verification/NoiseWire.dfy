/** The Noise session in explicit terms of the primitives: which keys a run derives, which bytes it
    puts on the wire, and which bytes it takes from it. */
module NoiseWire {
  import opened Bytes
  import opened ControllerStore
  import opened NoiseIK
  import opened NoiseAgreement
  import opened Transport

  const LAST_NONCE: nat := 0xffff_ffff_ffff_ffff

  lemma Names()
    ensures |PROTOCOL| == 32
    ensures forall i | 0 <= i < 32 :: PROTOCOL[i] as int == "Noise_IK_25519_ChaChaPoly_SHA256"[i] as int
    ensures HANDSHAKE_ACK == [80, 66, 73, 75, 49] && TRANSPORT_ACK == [80, 66, 79, 75, 49]
  {
  }

  // ---- The key schedule ----

  /** Section 2 of RFC 5869 with an empty info: extract under the chaining key, then the first block is
      the next chaining key and the second the cipher key. */
  function Chained(c: Crypto, ck: Octets, secret: Octets): Octets {
    c.hmac(c.hmac(ck, secret), [1])
  }

  function CipherKey(c: Crypto, ck: Octets, secret: Octets): Octets {
    c.hmac(c.hmac(ck, secret), c.hmac(c.hmac(ck, secret), [1]) + [2])
  }

  /** The transcript: the protocol name, the device's key, then every public value as it is sent. */
  function Hashed(c: Crypto, device: Octets, sent: seq<Octets>): Octets {
    if sent == [] then c.hash(c.hash(PROTOCOL) + device) else c.hash(Hashed(c, device, sent[..|sent| - 1]) + sent[|sent| - 1])
  }

  lemma HashedFour(c: Crypto, device: Octets, x: Octets, y: Octets, z: Octets, w: Octets)
    ensures var h := c.hash(c.hash(PROTOCOL) + device);
            && Hashed(c, device, []) == h && Hashed(c, device, [x]) == c.hash(h + x)
            && Hashed(c, device, [x, y]) == c.hash(c.hash(h + x) + y)
            && Hashed(c, device, [x, y, z]) == c.hash(c.hash(c.hash(h + x) + y) + z)
            && Hashed(c, device, [x, y, z, w]) == c.hash(c.hash(c.hash(c.hash(h + x) + y) + z) + w)
  {
    assert [x][..0] == [] && [x, y][..1] == [x] && [x, y, z][..2] == [x, y] && [x, y, z, w][..3] == [x, y, z];
  }

  /** What four shared secrets derive: the key of the static key's seal, of the acknowledgement's seal,
      the last chaining key, and the two transport keys, the initiator's sending key first. */
  datatype Derived = Derived(staticKey: Octets, ackKey: Octets, ck: Octets, toDevice: Octets, toHost: Octets)

  function Derive(c: Crypto, es: Octets, ss: Octets, ee: Octets, se: Octets): Derived {
    var ck0 := c.hash(PROTOCOL);
    var ck1 := Chained(c, ck0, es);
    var ck2 := Chained(c, ck1, ss);
    var ck3 := Chained(c, ck2, ee);
    var ck4 := Chained(c, ck3, se);
    Derived(CipherKey(c, ck0, es), CipherKey(c, ck3, se), ck4, Chained(c, ck4, []), CipherKey(c, ck4, []))
  }

  /** The device answers exactly when the message has its length, its static key opens under the first
      derived key and is enrolled, and all four exchanges succeed; and then the response, the transport
      keys, the transcript and the authenticated slot are these. */
  lemma DeviceRun(c: Crypto, d: Device, slots: seq<Slot>, m: Octets, e: Octets)
    requires Laws(c) && |m| == 80
    ensures var es := c.exchange(d.priv, m[..32]);
            var h := Hashed(c, d.public, [m[..32]]);
            var rs := if es.Some? then c.open(CipherKey(c, c.hash(PROTOCOL), es.value), 0, h, m[32..]) else None;
            && (Respond(c, d, slots, m, e).1.Some? <==>
                  && rs.Some? && FindFrom(slots, rs.value, 0).Some?
                  && c.exchange(d.priv, rs.value).Some?
                  && c.exchange(e, m[..32]).Some? && c.exchange(e, rs.value).Some?)
            && (Respond(c, d, slots, m, e).1.Some? ==>
                  var (d', response) := Respond(c, d, slots, m, e);
                  var k := Derive(c, es.value, c.exchange(d.priv, rs.value).value, c.exchange(e, m[..32]).value,
                                  c.exchange(e, rs.value).value);
                  var ack := c.seal(k.ackKey, 0, Hashed(c, d.public, [m[..32], m[32..], c.public(e)]), [80, 66, 73, 75, 49]);
                  && response.value == c.public(e) + ack
                  && d'.receiveKey == k.toDevice && d'.sendKey == k.toHost && d'.sym.ck == k.ck
                  && d'.sym.h == Hashed(c, d.public, [m[..32], m[32..], c.public(e), ack])
                  && d'.receiveNonce == 0 && d'.sendNonce == 0 && d'.ready
                  && Some(d'.authSlot) == FindFrom(slots, rs.value, 0)
                  && slots[d'.authSlot].key == rs.value && d'.authRole == slots[d'.authSlot].role)
  {
    var x := if Respond(c, d, slots, m, e).1.Some? then Respond(c, d, slots, m, e).1.value else [];
    HashedFour(c, d.public, m[..32], m[32..], c.public(e), if |x| >= 32 then x[32..] else []);
    if x != [] {
      AnsweredMeansEnrolled(c, d, slots, m, e);
      DeviceAck(c, d, slots, m, e);
    }
  }

  lemma DeviceAck(c: Crypto, d: Device, slots: seq<Slot>, m: Octets, e: Octets)
    requires Laws(c) && |m| == 80 && Respond(c, d, slots, m, e).1.Some?
    ensures var r := Respond(c, d, slots, m, e).1.value;
            |r| == 53 && r[..32] == c.public(e)
            && Respond(c, d, slots, m, e).0.sym.h == Hashed(c, d.public, [m[..32], m[32..], c.public(e), r[32..]])
  {
    var heard := Hear(c, d, slots, m).value;
    var r := Respond(c, d, slots, m, e).1.value;
    HashedFour(c, d.public, m[..32], m[32..], c.public(e), r[32..]);
    AnsweredMeansEnrolled(c, d, slots, m, e);
  }

  /** The host's first message, for every pinned device key. */
  lemma HostFirst(c: Crypto, priv: Octets, device: Octets, e: Octets)
    requires Laws(c)
    ensures var es := c.exchange(e, device); var run := Begin(c, NewHost(c, priv, device), e);
            && (run.Some? <==> es.Some? && c.exchange(priv, device).Some?)
            && (run.Some? ==>
                  run.value.1 ==
                  c.public(e) + c.seal(CipherKey(c, c.hash(PROTOCOL), es.value), 0, Hashed(c, device, [c.public(e)]), c.public(priv)))
  {
    HashedFour(c, device, c.public(e), [], [], []);
  }

  /** The host accepts exactly the responses whose acknowledgement opens to the agreed text under the
      last derived key and the transcript so far; and then its transport keys are these. */
  lemma HostRun(c: Crypto, priv: Octets, device: Octets, e: Octets, r: Octets)
    requires Laws(c) && Begin(c, NewHost(c, priv, device), e).Some? && |r| == 53
    ensures var (i, m) := Begin(c, NewHost(c, priv, device), e).value;
            var ee, se := c.exchange(e, r[..32]), c.exchange(priv, r[..32]);
            && (Complete(c, i, r).Some? <==>
                  && |m| == 80 && ee.Some? && se.Some?
                  && var k := Derive(c, c.exchange(e, device).value, c.exchange(priv, device).value, ee.value, se.value);
                     c.open(k.ackKey, 0, Hashed(c, device, [m[..32], m[32..], r[..32]]), r[32..]) == Some([80, 66, 73, 75, 49]))
            && (Complete(c, i, r).Some? ==>
                  var k := Derive(c, c.exchange(e, device).value, c.exchange(priv, device).value, ee.value, se.value);
                  var i' := Complete(c, i, r).value;
                  && i'.keys == Some((k.toDevice, k.toHost)) && i'.sym.ck == k.ck
                  && i'.sym.h == Hashed(c, device, [m[..32], m[32..], r[..32], r[32..]])
                  && i'.sendNonce == 0 && i'.receiveNonce == 0)
  {
    var (i, m) := Begin(c, NewHost(c, priv, device), e).value;
    HostFirst(c, priv, device, e);
    assert |m| == 80 && m[..32] == c.public(e) by {
      assert |c.public(e)| == 32;
    }
    assert m[32..] == c.seal(CipherKey(c, c.hash(PROTOCOL), c.exchange(e, device).value), 0, Hashed(c, device, [c.public(e)]), c.public(priv));
    HashedFour(c, device, m[..32], m[32..], r[..32], r[32..]);
  }

  // ---- Frames ----

  /** A frame opens exactly when the device has a session and the frame is the sealing of a plaintext of
      at most 1038 bytes under the session's receiving key and exactly the next nonce. */
  lemma OpensExactly(c: Crypto, d: Device, frame: Octets, p: Octets)
    requires Laws(c) && d.receiveNonce <= LAST_NONCE
    ensures Opens(c, d, frame).1 == Some(p) <==>
              && d.ready && d.receiveNonce != LAST_NONCE && |p| <= 1038
              && frame == [6] + LeBytes(d.receiveNonce, 8) + c.seal(d.receiveKey, d.receiveNonce, [], p)
    ensures Opens(c, d, frame).0 == if Opens(c, d, frame).1.Some? then d.(receiveNonce := d.receiveNonce + 1) else d
  {
    var n := d.receiveNonce;
    var sealed := c.seal(d.receiveKey, n, [], p);
    PowValues();
    LeRoundTrip(n, 8);
    var made := [6] + LeBytes(n, 8) + sealed;
    if frame == made {
      assert frame[1..][..8] == LeBytes(n, 8) && frame[1..][8..] == sealed;
      assert frame[0] == 6;
    }
    if Opens(c, d, frame).1 == Some(p) {
      LeInverse(frame[1..][..8]);
      assert frame == [frame[0]] + frame[1..][..8] + frame[1..][8..];
    }
  }

  /** The receipt of a command, and that only a session gives one. */
  lemma SealsExactly(c: Crypto, d: Device, code: Byte)
    ensures SealReceipt(c, d, code) ==
              if d.ready && d.sendNonce != LAST_NONCE then
                (d.(sendNonce := d.sendNonce + 1),
                 Some([6] + (LeBytes(d.sendNonce, 8) + c.seal(d.sendKey, d.sendNonce, [], [80, 66, 79, 75, 49, code]))))
              else (d, None)
  {
    assert TRANSPORT_ACK + [code] == [80, 66, 79, 75, 49, code];
  }

  lemma SendsExactly(c: Crypto, i: Host, p: Octets)
    ensures EncryptPacket(c, i, p) ==
              if i.keys.Some? && i.sendNonce <= LAST_NONCE then
                Some((i.(sendNonce := i.sendNonce + 1),
                      [6] + LeBytes(i.sendNonce, 8) + c.seal(i.keys.value.0, i.sendNonce, [], p)))
              else None
  {
  }

  /** A receipt is taken exactly when it is six bytes sealed under the host's receiving key and exactly
      the next nonce. */
  lemma TakesExactly(c: Crypto, i: Host, packet: Octets, x: Octets)
    requires Laws(c)
    ensures VerifyAck(c, i, packet).1 == Some(x) <==>
              && i.keys.Some? && i.receiveNonce <= LAST_NONCE && |x| == 6
              && packet == [6] + LeBytes(i.receiveNonce, 8) + c.seal(i.keys.value.1, i.receiveNonce, [], x)
    ensures VerifyAck(c, i, packet).0 ==
              if VerifyAck(c, i, packet).1.Some? then i.(receiveNonce := i.receiveNonce + 1) else i
  {
    var n := i.receiveNonce;
    PowValues();
    if i.keys.Some? && n <= LAST_NONCE {
      LeRoundTrip(n, 8);
      var sealed := c.seal(i.keys.value.1, n, [], x);
      if packet == [6] + LeBytes(n, 8) + sealed {
        assert packet[0] == 6 && packet[1..9] == LeBytes(n, 8) && packet[9..] == sealed;
      }
    }
    if VerifyAck(c, i, packet).1 == Some(x) {
      LeInverse(packet[1..9]);
      assert packet == [packet[0]] + packet[1..9] + packet[9..];
    }
  }

  /** Handshake frames are 81 bytes behind a 5, and so are their 54-byte answers. */
  lemma HandshakeFrames(c: Crypto, d: Device, slots: seq<Slot>, frame: Octets, e: Octets, due: Option<Byte>)
    ensures IsHandshake(frame) <==> |frame| == 81 && frame[0] == 5
    ensures IsHandshake(frame) ==>
              var (after, answer) := Respond(c, d, slots, frame[1..], e);
              Reacts(c, d, slots, frame, e, due) == (after, if answer.Some? then Some([5] + answer.value) else None)
  {
  }

  // ---- Without a session ----

  /** A device without a session takes nothing but handshakes: every other frame leaves it as it was,
      unanswered and unexecuted. */
  lemma NoSession(c: Crypto, d: Device, slots: seq<Slot>, frame: Octets, e: Octets, due: Option<Byte>)
    requires !d.ready && !IsHandshake(frame)
    ensures Opens(c, d, frame) == (d, None)
    ensures Reacts(c, d, slots, frame, e, due) == (d, None)
  {
  }

  /** A frame as it arrives, with what the device has at hand then. */
  datatype Arrival = Arrival(frame: Octets, slots: seq<Slot>, ephemeral: Octets, due: Option<Byte>)

  /** A device, every command it has opened so far, and the handshakes it has answered. */
  datatype Life = Life(device: Device, opened_: seq<Octets>, answered: nat)

  function Meets(c: Crypto, l: Life, a: Arrival): Life {
    var (device, response) := Reacts(c, l.device, a.slots, a.frame, a.ephemeral, a.due);
    Life(device, l.opened_ + Listed(Opens(c, l.device, a.frame).1),
         if IsHandshake(a.frame) && response.Some? then l.answered + 1 else l.answered)
  }

  function MeetsAll(c: Crypto, l: Life, arrivals: seq<Arrival>): Life
    decreases |arrivals|
  {
    if arrivals == [] then l else MeetsAll(c, Meets(c, l, arrivals[0]), arrivals[1..])
  }

  ghost predicate Unopened(l: Life) {
    l.answered == 0 ==> !l.device.ready && l.opened_ == []
  }

  lemma MeetsKeeps(c: Crypto, l: Life, a: Arrival)
    requires Unopened(l)
    ensures Unopened(Meets(c, l, a)) && Meets(c, l, a).answered >= l.answered
  {
    if l.answered == 0 {
      if IsHandshake(a.frame) {
        if Respond(c, l.device, a.slots, a.frame[1..], a.ephemeral).1.None? {
          FailureLeavesNoSession(c, l.device, a.slots, a.frame[1..], a.ephemeral);
        }
      } else {
        NoSession(c, l.device, a.slots, a.frame, a.ephemeral, a.due);
      }
    }
  }

  lemma {:induction false} MeetsAllKeeps(c: Crypto, l: Life, arrivals: seq<Arrival>)
    requires Unopened(l)
    ensures Unopened(MeetsAll(c, l, arrivals))
    decreases |arrivals|
  {
    if arrivals != [] {
      MeetsKeeps(c, l, arrivals[0]);
      MeetsAllKeeps(c, Meets(c, l, arrivals[0]), arrivals[1..]);
    }
  }

  /** From initialisation, whatever arrives, no command is opened before a handshake has been answered. */
  lemma NothingBeforeHandshake(c: Crypto, d: Device, arrivals: seq<Arrival>)
    requires d == Reset(c, d)
    ensures var l := MeetsAll(c, Life(d, [], 0), arrivals); l.answered == 0 ==> l.opened_ == [] && !l.device.ready
  {
    MeetsAllKeeps(c, Life(d, [], 0), arrivals);
  }

  // ---- What the network may do, and what integrity asks ----

  /** No delivery is ruled out but one: bytes that would open under the session's keys although nobody
      sealed them. Everything either party sealed may arrive at any time and any number of times, every
      handshake frame may, and so may any bytes that do not open. */
  lemma NetworkMayDeliver(c: Crypto, o: Opening, l: Link, frame: Octets, slots: seq<Slot>, e: Octets, due: Option<Byte>)
    requires Opened(c, o)
    ensures frame in l.frames || IsHandshake(frame) || !l.live || Opens(c, l.device, frame).1.None? ==>
              Deliverable(c, o, l, ToDevice(frame, slots, e, due))
    ensures frame in l.receipts || VerifyAck(c, l.host, frame).1.None? ==> Deliverable(c, o, l, ToHost(frame))
    ensures Deliverable(c, o, l, HostSends(frame))
  {
  }

  /** Integrity of a response asks no more than this: the two transcripts contain no collision, and if
      the acknowledgement opens for the host, then it is the device's, sealed under the host's key and
      transcript. */
  lemma IntegrityAsks(c: Crypto, o: Opening, response: Octets)
    requires Laws(c) && Opened(c, o) && |response| == 53
    requires var e, m, p, e2 := c.public(o.eh), o.message, SealedBytes(c, StaticSealing(c, o)), response[..32];
             var h0 := c.hash(PROTOCOL);
             var a1 := h0 + o.host.device; var b1 := h0 + o.device.public;
             var a2 := c.hash(a1) + e; var b2 := c.hash(b1) + m[..32];
             var a3 := c.hash(a2) + p; var b3 := c.hash(b2) + m[32..];
             CollisionFree(c, [a1, a2, a3, c.hash(a3) + e2, b1, b2, b3, c.hash(b3) + c.public(o.ed)])
    requires forall ee, se | c.exchange(o.eh, response[..32]) == Some(ee) && c.exchange(o.host.priv, response[..32]) == Some(se) ::
               var under := BeforeAck(c, Asking(c, o).sym, response[..32], ee, se);
               c.open(under.key, under.nonce, under.h, response[32..]).Some? ==>
                 && response[32..] == Told(c, o)[32..]
                 && under.key == AckState(c, o).key && under.h == AckState(c, o).h
    ensures Integrity(c, o, response)
  {
    hide CollisionFree, Complete, Begin, Respond, StaticSealing, AckSealing, SealedBytes;
    AckIsTold(c, o);
    DeviceHalf(c, o);
    var xs := HashInputs(c, o.host.device, c.public(o.eh), SealedBytes(c, StaticSealing(c, o)), response[..32]);
    var ys := HashInputs(c, o.device.public, o.message[..32], o.message[32..], c.public(o.ed));
    assert xs + ys == [xs[0], xs[1], xs[2], xs[3], ys[0], ys[1], ys[2], ys[3]];
    assert NoCollisions(c, o, response[..32]);
    forall ee, se | c.exchange(o.eh, response[..32]) == Some(ee) && c.exchange(o.host.priv, response[..32]) == Some(se)
      ensures Genuine(c, [StaticSealing(c, o), AckSealing(c, o)],
                      BeforeAck(c, Asking(c, o).sym, response[..32], ee, se), response[32..])
    {
      var seals := [StaticSealing(c, o), AckSealing(c, o)];
      assert seals[1] in seals;
    }
  }

  lemma AckIsTold(c: Crypto, o: Opening)
    requires Laws(c) && Opened(c, o)
    ensures |Told(c, o)| == 53 && Told(c, o)[32..] == SealedBytes(c, AckSealing(c, o))
    ensures var s := AckSealing(c, o); s.key == AckState(c, o).key && s.nonce == 0 && s.ad == AckState(c, o).h
  {
    DeviceHalf(c, o);
  }
}

/** What the two Noise parties agree on when a handshake ends: first between honest parties, then
    over a network that may hand either of them any bytes. */
module NoiseAgreement {
  import opened Bytes
  import opened ControllerStore
  import opened NoiseIK

  // ---- Agreement of honest parties ----

  /** The first message tells the device exactly what the host put in it. */
  lemma HeardWhatWasSaid(c: Crypto, i: Host, d: Device, slots: seq<Slot>, ephemeral: Octets)
    requires Laws(c) && d.public == c.public(d.priv) && i == NewHost(c, i.priv, d.public)
    requires Begin(c, i, ephemeral).Some?
    ensures var (i', message) := Begin(c, i, ephemeral).value;
            && |message| == 80
            && Hear(c, d, slots, message) ==
               match FindFrom(slots, i.public, 0)
               case None => None
               case Some(slot) => Some(Heard(i'.sym, c.public(ephemeral), i.public, slot))
  {
    var public := c.public(ephemeral);
    var (i', message) := Begin(c, i, ephemeral).value;
    var es := c.exchange(ephemeral, i.device).value;
    var before := MixKey(c, MixHash(c, i.sym, public), es);
    var (s, sealed) := EncryptAndHash(c, before, i.public);
    assert message == public + sealed;
    assert message[..32] == public && message[32..] == sealed;
    assert c.exchange(d.priv, public) == Some(es);
    assert c.open(before.key, before.nonce, before.h, sealed) == Some(i.public);
    assert c.exchange(d.priv, i.public) == c.exchange(i.priv, i.device);
  }

  /** The answer is understood by the host, and leaves both with the same symmetric state. */
  lemma AnswerUnderstood(c: Crypto, i: Host, d: Device, heard: Heard, eh: Octets, ed: Octets)
    requires Laws(c) && i.public == c.public(i.priv) && i.ephemeral == Some(eh)
    requires heard.sym == i.sym && heard.ephemeral == c.public(eh) && heard.static_ == i.public
    requires Answer(c, d, heard, ed).Some?
    ensures var (s, response) := Answer(c, d, heard, ed).value;
            |response| == 53 && Complete(c, i, response) ==
              Some(SplitHost(c, i, s))
  {
    var public := c.public(ed);
    var ee := c.exchange(ed, heard.ephemeral).value;
    var se := c.exchange(ed, heard.static_).value;
    var before := MixKey(c, MixKey(c, MixHash(c, heard.sym, public), ee), se);
    var (s, ack) := EncryptAndHash(c, before, HANDSHAKE_ACK);
    var response := public + ack;
    assert Answer(c, d, heard, ed).value == (s, response);
    assert response[..32] == public && response[32..] == ack;
    assert c.exchange(eh, public) == Some(ee);
    assert c.exchange(i.priv, public) == Some(se);
    assert c.open(before.key, before.nonce, before.h, ack) == Some(HANDSHAKE_ACK);
  }

  /** The two ends of one session. */
  ghost predicate Paired(i: Host, d: Device) {
    && i.keys.Some? && d.ready
    && i.sym.h == d.sym.h && i.sym.ck == d.sym.ck
    && i.keys.value == (d.receiveKey, d.sendKey)
    && i.sendNonce == i.receiveNonce == d.receiveNonce == d.sendNonce == 0
  }

  /** With nothing altered on the way: a host whose first message the device answers completes, both
      hold the same transcript hash, chaining key and crossed transport keys with all four nonces 0,
      and the device has authenticated the slot that holds the host's key. */
  lemma HonestHandshake(c: Crypto, i: Host, d: Device, slots: seq<Slot>, eh: Octets, ed: Octets)
    requires Laws(c) && d.public == c.public(d.priv) && i == NewHost(c, i.priv, d.public)
    requires Begin(c, i, eh).Some?
    requires Respond(c, d, slots, Begin(c, i, eh).value.1, ed).1.Some?
    ensures var (i1, message) := Begin(c, i, eh).value;
            var (d2, response) := Respond(c, d, slots, message, ed);
            var i2 := Complete(c, i1, response.value);
            && i2.Some? && Paired(i2.value, d2) && |response.value| == 53
            && Some(d2.authSlot) == FindFrom(slots, i.public, 0)
            && d2.authSlot < |slots| && slots[d2.authSlot].key == i.public
            && d2.authRole == slots[d2.authSlot].role != NONE
  {
    var (i1, message) := Begin(c, i, eh).value;
    HeardWhatWasSaid(c, i, d, slots, eh);
    var heard := Hear(c, d, slots, message).value;
    AnswerUnderstood(c, i1, d, heard, eh, ed);
  }

  /** The device answers an honest host exactly when its key is enrolled and the two exchanges with
      the fresh ephemeral succeed; every other outcome after the length check leaves no session. */
  lemma AnswersExactlyTheEnrolled(c: Crypto, i: Host, d: Device, slots: seq<Slot>, eh: Octets, ed: Octets)
    requires Laws(c) && d.public == c.public(d.priv) && i == NewHost(c, i.priv, d.public)
    requires Begin(c, i, eh).Some?
    ensures Respond(c, d, slots, Begin(c, i, eh).value.1, ed).1.Some? <==>
              && FindFrom(slots, i.public, 0).Some?
              && c.exchange(ed, c.public(eh)).Some? && c.exchange(ed, i.public).Some?
  {
    HeardWhatWasSaid(c, i, d, slots, eh);
  }

  lemma FailureLeavesNoSession(c: Crypto, d: Device, slots: seq<Slot>, message: Octets, ed: Octets)
    requires Respond(c, d, slots, message, ed).1.None?
    ensures var d' := Respond(c, d, slots, message, ed).0;
            if |message| != 80 then d' == d
            else !d'.ready && d'.authSlot == SLOTS && d'.authRole == NONE
                 && d'.receiveKey == d'.sendKey == d'.sym.key == ZERO32
  {
  }

  /** Whoever gets an answer, honest or not, sent the sealed static key of an enrolled slot. */
  lemma AnsweredMeansEnrolled(c: Crypto, d: Device, slots: seq<Slot>, message: Octets, ed: Octets)
    requires Laws(c) && Respond(c, d, slots, message, ed).1.Some?
    ensures |Respond(c, d, slots, message, ed).1.value| == 53
    ensures var d' := Respond(c, d, slots, message, ed).0;
            && d'.ready && d'.authSlot < |slots|
            && d'.authRole == slots[d'.authSlot].role != NONE
            && |message| == 80
            && c.exchange(d.priv, message[..32]).Some?
            && var s := MixKey(c, MixHash(c, StartSymmetric(c, d.public), message[..32]), c.exchange(d.priv, message[..32]).value);
               message[32..] == c.seal(s.key, s.nonce, s.h, slots[d'.authSlot].key)
  {
  }

  // ---- Agreement over a hostile network ----

  /** One run of a device that answered, and a host that has sent its first message to the device it
      has pinned. Whether the two belong together is open: the message the device got may be any, and
      of many runs of many devices this may be any. */
  datatype Opening = Opening(host: Host, device: Device, slots: seq<Slot>, message: Octets, eh: Octets, ed: Octets)

  ghost predicate Opened(c: Crypto, o: Opening) {
    && o.device.public == c.public(o.device.priv)
    && o.host == NewHost(c, o.host.priv, o.host.device)
    && Begin(c, o.host, o.eh).Some?
    && |o.message| == 80 && Respond(c, o.device, o.slots, o.message, o.ed).1.Some?
  }

  /** The host after its first message. */
  ghost function Asking(c: Crypto, o: Opening): Host
    requires Opened(c, o)
  {
    Begin(c, o.host, o.eh).value.0
  }

  ghost function Asked(c: Crypto, o: Opening): Octets
    requires Opened(c, o)
  {
    Begin(c, o.host, o.eh).value.1
  }

  /** The device's session, and the response that opened it. */
  ghost function Session(c: Crypto, o: Opening): Device
    requires Opened(c, o)
  {
    Respond(c, o.device, o.slots, o.message, o.ed).0
  }

  ghost function Told(c: Crypto, o: Opening): Octets
    requires Opened(c, o)
  {
    Respond(c, o.device, o.slots, o.message, o.ed).1.value
  }

  /** The run belongs to the host: the device is the pinned one, and it answered the host's message. */
  ghost predicate Hosted(c: Crypto, o: Opening)
    requires Opened(c, o)
  {
    o.host.device == o.device.public && o.message == Asked(c, o)
  }

  /** One use of the sealing operation. */
  datatype Sealing = Sealing(key: Octets, nonce: nat, ad: Octets, plaintext: Octets)

  function SealedBytes(c: Crypto, s: Sealing): Octets {
    c.seal(s.key, s.nonce, s.ad, s.plaintext)
  }

  /** If these bytes open, they are one of these sealings, made under the same key, nonce and data. */
  ghost predicate Genuine(c: Crypto, seals: seq<Sealing>, under: Symmetric, bytes: Octets) {
    c.open(under.key, under.nonce, under.h, bytes).Some? ==>
      exists s <- seals :: s.key == under.key && s.nonce == under.nonce && s.ad == under.h && SealedBytes(c, s) == bytes
  }

  /** The state in which the static key is sealed and opened, on either side. */
  function BeforeStatic(c: Crypto, device: Octets, e: Octets, es: Octets): Symmetric {
    MixKey(c, MixHash(c, StartSymmetric(c, device), e), es)
  }

  /** The state in which the acknowledgement is sealed and opened, on either side. */
  function BeforeAck(c: Crypto, s: Symmetric, e: Octets, ee: Octets, se: Octets): Symmetric {
    MixKey(c, MixKey(c, MixHash(c, s, e), ee), se)
  }

  ghost function StaticSealing(c: Crypto, o: Opening): Sealing
    requires Opened(c, o)
  {
    var s := BeforeStatic(c, o.host.device, c.public(o.eh), c.exchange(o.eh, o.host.device).value);
    Sealing(s.key, s.nonce, s.h, o.host.public)
  }

  ghost function AckState(c: Crypto, o: Opening): Symmetric
    requires Opened(c, o)
  {
    var heard := Hear(c, o.device, o.slots, o.message).value;
    BeforeAck(c, heard.sym, c.public(o.ed), c.exchange(o.ed, heard.ephemeral).value, c.exchange(o.ed, heard.static_).value)
  }

  ghost function AckSealing(c: Crypto, o: Opening): Sealing
    requires Opened(c, o)
  {
    var s := AckState(c, o);
    Sealing(s.key, s.nonce, s.h, HANDSHAKE_ACK)
  }

  /** The four hash inputs of a transcript after the protocol name. */
  function HashInputs(c: Crypto, device: Octets, e: Octets, s: Octets, e2: Octets): (r: seq<Octets>)
    ensures |r| == 4
  {
    var a := c.hash(PROTOCOL) + device;
    var b := c.hash(a) + e;
    var d := c.hash(b) + s;
    [a, b, d, c.hash(d) + e2]
  }

  ghost predicate CollisionFree(c: Crypto, inputs: seq<Octets>) {
    forall x <- inputs, y <- inputs :: c.hash(x) == c.hash(y) ==> x == y
  }

  ghost predicate NoCollisions(c: Crypto, o: Opening, e2: Octets)
    requires Opened(c, o)
  {
    CollisionFree(c, HashInputs(c, o.host.device, c.public(o.eh), SealedBytes(c, StaticSealing(c, o)), e2)
                     + HashInputs(c, o.device.public, o.message[..32], o.message[32..], c.public(o.ed)))
  }

  /** What the cipher and the hash are trusted for when the host reads a response: an acknowledgement
      that opens is one of the two things sealed in this run, under the same key, nonce and transcript
      hash, and the transcripts of the two sides contain no hash collision. */
  ghost predicate Integrity(c: Crypto, o: Opening, response: Octets)
    requires Opened(c, o)
  {
    |response| == 53 ==>
      && NoCollisions(c, o, response[..32])
      && forall ee, se | c.exchange(o.eh, response[..32]) == Some(ee) && c.exchange(o.host.priv, response[..32]) == Some(se) ::
           Genuine(c, [StaticSealing(c, o), AckSealing(c, o)],
                   BeforeAck(c, Asking(c, o).sym, response[..32], ee, se), response[32..])
  }

  lemma TranscriptsSplit(c: Crypto, p: Octets, e: Octets, s: Octets, e2: Octets, p': Octets, e': Octets, s': Octets, e2': Octets)
    requires Laws(c)
    requires var xs, ys := HashInputs(c, p, e, s, e2), HashInputs(c, p', e', s', e2');
             CollisionFree(c, xs + ys) && c.hash(xs[3]) == c.hash(ys[3])
    ensures p == p' && e == e' && s == s' && e2 == e2'
  {
    var xs, ys := HashInputs(c, p, e, s, e2), HashInputs(c, p', e', s', e2');
    Collide(c, xs, ys, 3);
    PrefixSplit(c.hash(xs[2]), e2, c.hash(ys[2]), e2');
    Collide(c, xs, ys, 2);
    PrefixSplit(c.hash(xs[1]), s, c.hash(ys[1]), s');
    Collide(c, xs, ys, 1);
    PrefixSplit(c.hash(xs[0]), e, c.hash(ys[0]), e');
    Collide(c, xs, ys, 0);
    PrefixSplit(c.hash(PROTOCOL), p, c.hash(PROTOCOL), p');
  }

  lemma Collide(c: Crypto, xs: seq<Octets>, ys: seq<Octets>, k: nat)
    requires CollisionFree(c, xs + ys) && k < |xs| && k < |ys| && c.hash(xs[k]) == c.hash(ys[k])
    ensures xs[k] == ys[k]
  {
    assert xs[k] == (xs + ys)[k] && ys[k] == (xs + ys)[|xs| + k];
  }

  lemma PrefixSplit(a: Octets, x: Octets, b: Octets, y: Octets)
    requires |a| == |b| && a + x == b + y
    ensures a == b && x == y
  {
    assert (a + x)[..|a|] == a && (b + y)[..|b|] == b;
    assert (a + x)[|a|..] == x && (b + y)[|b|..] == y;
  }

  /** The host's half of a run, in terms of the states above. */
  lemma HostHalf(c: Crypto, o: Opening, response: Octets)
    requires Laws(c) && Opened(c, o) && Complete(c, Asking(c, o), response).Some?
    ensures |response| == 53
    ensures var ee, se := c.exchange(o.eh, response[..32]), c.exchange(o.host.priv, response[..32]);
            && ee.Some? && se.Some?
            && var s := BeforeAck(c, Asking(c, o).sym, response[..32], ee.value, se.value);
               && c.open(s.key, s.nonce, s.h, response[32..]) == Some(HANDSHAKE_ACK)
               && s.h == c.hash(HashInputs(c, o.host.device, c.public(o.eh), SealedBytes(c, StaticSealing(c, o)), response[..32])[3])
    ensures Asked(c, o) == c.public(o.eh) + SealedBytes(c, StaticSealing(c, o))
  {
  }

  /** The device's half. */
  lemma DeviceHalf(c: Crypto, o: Opening)
    requires Laws(c) && Opened(c, o)
    ensures |Told(c, o)| == 53
    ensures AckState(c, o).h == c.hash(HashInputs(c, o.device.public, o.message[..32], o.message[32..], c.public(o.ed))[3])
    ensures Told(c, o) == c.public(o.ed) + SealedBytes(c, AckSealing(c, o))
  {
    var heard := Hear(c, o.device, o.slots, o.message).value;
    AnsweredMeansEnrolled(c, o.device, o.slots, o.message, o.ed);
  }

  /** If the host completes, what it read was the device's acknowledgement, so the run is its own. */
  lemma CompletedMeansHosted(c: Crypto, o: Opening, response: Octets)
    requires Laws(c) && Opened(c, o) && Integrity(c, o, response)
    requires Complete(c, Asking(c, o), response).Some?
    ensures Hosted(c, o) && response == Told(c, o)
  {
    hide Respond, Begin, Hear, Complete, HashInputs, CollisionFree;
    HostHalf(c, o, response);
    DeviceHalf(c, o);
    var e2 := response[..32];
    var ee, se := c.exchange(o.eh, e2).value, c.exchange(o.host.priv, e2).value;
    var s := BeforeAck(c, Asking(c, o).sym, e2, ee, se);
    var sealing :| sealing in [StaticSealing(c, o), AckSealing(c, o)] && sealing.key == s.key
                   && sealing.ad == s.h && SealedBytes(c, sealing) == response[32..];
    assert |SealedBytes(c, StaticSealing(c, o))| == 48;
    assert sealing == AckSealing(c, o);
    TranscriptsSplit(c, o.host.device, c.public(o.eh), SealedBytes(c, StaticSealing(c, o)), e2,
                     o.device.public, o.message[..32], o.message[32..], c.public(o.ed));
    assert o.message == o.message[..32] + o.message[32..];
    assert response == response[..32] + response[32..];
  }

  /** Handshake agreement: for all key pairs, every message that reached the device and every response
      that reached the host, the host completes exactly when the device it pinned answered its own
      message and it got that very answer. Then both hold the same transcript hash, chaining key and
      crossed transport keys with all four nonces 0, and the device has authenticated the slot that
      holds the host's key. */
  lemma HandshakeAgreement(c: Crypto, o: Opening, response: Octets)
    requires Laws(c) && Opened(c, o) && Integrity(c, o, response)
    ensures Complete(c, Asking(c, o), response).Some? <==> Hosted(c, o) && response == Told(c, o)
    ensures Complete(c, Asking(c, o), response).Some? ==>
              var d := Session(c, o);
              && Paired(Complete(c, Asking(c, o), response).value, d)
              && Some(d.authSlot) == FindFrom(o.slots, o.host.public, 0)
              && d.authSlot < |o.slots| && o.slots[d.authSlot].key == o.host.public
              && d.authRole == o.slots[d.authSlot].role != NONE
  {
    if Complete(c, Asking(c, o), response).Some? {
      CompletedMeansHosted(c, o, response);
    }
    if Hosted(c, o) {
      HonestHandshake(c, o.host, o.device, o.slots, o.eh, o.ed);
    }
  }

  /** The device's side alone: if the static key it opened was sealed by this host, then it is the
      device the host pinned and it got the host's message, whether or not the host ever finishes. */
  lemma AnsweredMeansHosted(c: Crypto, o: Opening)
    requires Laws(c) && Opened(c, o) && NoCollisions(c, o, c.public(o.ed))
    requires var e := o.message[..32];
             c.exchange(o.device.priv, e).Some? ==>
               Genuine(c, [StaticSealing(c, o)], BeforeStatic(c, o.device.public, e, c.exchange(o.device.priv, e).value),
                       o.message[32..])
    ensures Hosted(c, o)
  {
    hide CollisionFree, Complete;
    var e := o.message[..32];
    DeviceHalf(c, o);
    var under := BeforeStatic(c, o.device.public, e, c.exchange(o.device.priv, e).value);
    var sealing := StaticSealing(c, o);
    assert c.open(under.key, under.nonce, under.h, o.message[32..]).Some?;
    assert sealing.ad == under.h && SealedBytes(c, sealing) == o.message[32..];
    var xs := HashInputs(c, o.host.device, c.public(o.eh), SealedBytes(c, sealing), c.public(o.ed));
    var ys := HashInputs(c, o.device.public, e, o.message[32..], c.public(o.ed));
    assert c.hash(xs[1]) == sealing.ad && c.hash(ys[1]) == under.h;
    assert xs[3] == ys[3];
    TranscriptsSplit(c, o.host.device, c.public(o.eh), SealedBytes(c, sealing), c.public(o.ed),
                     o.device.public, e, o.message[32..], c.public(o.ed));
    assert o.message == e + o.message[32..];
  }
}

/** The two Noise parties as their programs run them: the firmware's single responder context and
    the host's initiator object, both updated step by step. */
module NoiseParties {
  import opened Bytes
  import opened ControllerStore
  import opened Noise = NoiseIK

  /** `noise_ik_ctx_t`. */
  class Responder {
    const crypto: Crypto
    var priv: Octets
    var public: Octets
    var authSlot: nat
    var authRole: Byte
    var key: Octets
    var receiveKey: Octets
    var sendKey: Octets
    var ck: Octets
    var h: Octets
    var nonceCounter: nat
    var receiveNonce: nat
    var sendNonce: nat
    var ready: bool

    ghost function Sym(): Symmetric
      reads this
    {
      Symmetric(h, ck, key, nonceCounter)
    }

    ghost function View(): Device
      reads this
    {
      Device(priv, public, Sym(), authSlot, authRole, receiveKey, sendKey, receiveNonce, sendNonce, ready)
    }

    /** `noise_ik_init`: the public key is derived from the device's private key. */
    constructor (crypto: Crypto, devicePrivate: Octets)
      ensures this.crypto == crypto && View().priv == devicePrivate && View().public == crypto.public(devicePrivate)
      ensures View() == Noise.Reset(crypto, View())
    {
      this.crypto := crypto;
      priv, public := devicePrivate, crypto.public(devicePrivate);
      new;
      ResetHandshakeState();
    }

    method MixHash(data: Octets)
      modifies this`h
      ensures Sym() == Noise.MixHash(crypto, old(Sym()), data)
    {
      h := crypto.hash(h + data);
    }

    method MixKey(secret: Octets)
      requires Laws(crypto)
      modifies this`ck, this`key, this`nonceCounter
      ensures Sym() == Noise.MixKey(crypto, old(Sym()), secret)
    {
      KdfsAgree(crypto, ck, secret);
      var tmp := Hkdf(crypto, ck, secret, []);
      ck := tmp[..32];
      key := tmp[32..];
      nonceCounter := 0;
    }

    method CipherEncryptAndHash(plaintext: Octets) returns (sealed: Octets)
      modifies this`h, this`nonceCounter
      ensures (Sym(), sealed) == EncryptAndHash(crypto, old(Sym()), plaintext)
    {
      sealed := crypto.seal(key, nonceCounter, h, plaintext);
      nonceCounter := nonceCounter + 1;
      MixHash(sealed);
    }

    method CipherDecryptAndHash(sealed: Octets) returns (plaintext: Option<Octets>)
      modifies this`h, this`nonceCounter
      ensures match DecryptAndHash(crypto, old(Sym()), sealed)
              case None => plaintext == None
              case Some((s, p)) => plaintext == Some(p) && Sym() == s
    {
      plaintext := crypto.open(key, nonceCounter, h, sealed);
      if plaintext.Some? {
        nonceCounter := nonceCounter + 1;
        MixHash(sealed);
      }
    }

    /** `split_transport`. */
    method SplitTransport()
      requires Laws(crypto)
      modifies this`receiveKey, this`sendKey, this`receiveNonce, this`sendNonce, this`key
      ensures View() == SplitDevice(crypto, old(View()), old(Sym()))
    {
      KdfsAgree(crypto, ck, []);
      var tmp := Hkdf(crypto, ck, [], []);
      receiveKey := tmp[..32];
      sendKey := tmp[32..];
      receiveNonce, sendNonce := 0, 0;
      key := ZERO32;
    }

    /** `reset_handshake_state`. */
    method ResetHandshakeState()
      modifies this
      ensures View() == Noise.Reset(crypto, old(View()))
    {
      ClearSession();
      h := crypto.hash(PROTOCOL);
      ck := h;
      MixHash(public);
    }

    method ClearSession()
      modifies this
      ensures View() == Device(old(priv), old(public), Symmetric(old(h), old(ck), ZERO32, 0), SLOTS, NONE,
                               ZERO32, ZERO32, 0, 0, false)
    {
      ready := false;
      authSlot, authRole := SLOTS, NONE;
      nonceCounter, receiveNonce, sendNonce := 0, 0, 0;
      key, receiveKey, sendKey := ZERO32, ZERO32, ZERO32;
    }

    /** The first half of the responder run, from the reset to `ss`. */
    method ReadFirst(slots: seq<Slot>, message: Octets) returns (heard: Option<Heard>)
      requires Laws(crypto) && |message| == 80
      modifies this
      ensures heard == Hear(crypto, old(View()), slots, message)
      ensures View() == Noise.Reset(crypto, old(View())).(sym := Sym())
      ensures heard.Some? ==> Sym() == heard.value.sym
    {
      ResetHandshakeState();
      var ephemeral := message[..32];
      MixHash(ephemeral);
      var es := crypto.exchange(priv, ephemeral);
      if es.None? { return None; }
      MixKey(es.value);
      var static_ := CipherDecryptAndHash(message[32..]);
      if static_.None? { return None; }
      var matched := MatchSlot(slots, static_.value);
      if matched.None? { return None; }
      var ss := crypto.exchange(priv, static_.value);
      if ss.None? { return None; }
      MixKey(ss.value);
      return Some(Heard(Symmetric(h, ck, key, nonceCounter), ephemeral, static_.value, matched.value));
    }

    /** The roster loop of the responder: it looks at every slot and keeps the first match. */
    method MatchSlot(slots: seq<Slot>, static_: Octets) returns (matched: Option<nat>)
      ensures matched == FindFrom(slots, static_, 0)
    {
      matched := None;
      for i := 0 to |slots|
        invariant matched.None? ==> FindFrom(slots, static_, 0) == FindFrom(slots, static_, i)
        invariant matched.Some? ==> FindFrom(slots, static_, 0) == matched
      {
        if slots[i].role != NONE && slots[i].key == static_ && matched.None? {
          matched := Some(i);
        }
      }
    }

    /** The second half, from the fresh ephemeral to the sealed acknowledgement. */
    method WriteSecond(heard: Heard, ephemeral: Octets) returns (response: Option<Octets>)
      requires Laws(crypto) && Sym() == heard.sym
      modifies this`h, this`ck, this`key, this`nonceCounter
      ensures match Answer(crypto, old(View()), heard, ephemeral)
              case None => response == None
              case Some((s, r)) => response == Some(r) && Sym() == s
    {
      var ephPublic := crypto.public(ephemeral);
      MixHash(ephPublic);
      var ee := crypto.exchange(ephemeral, heard.ephemeral);
      if ee.None? { return None; }
      MixKey(ee.value);
      var se := crypto.exchange(ephemeral, heard.static_);
      if se.None? { return None; }
      MixKey(se.value);
      var ack := CipherEncryptAndHash(HANDSHAKE_ACK);
      return Some(ephPublic + ack);
    }

    /** `noise_ik_handshake_respond`; `ephemeral` is the key pair drawn for this run. */
    method HandshakeRespond(slots: seq<Slot>, message: Octets, ephemeral: Octets) returns (response: Option<Octets>)
      requires Laws(crypto)
      modifies this
      ensures (View(), response) == Respond(crypto, old(View()), slots, message, ephemeral)
    {
      if |message| != 80 { return None; }
      var heard := ReadFirst(slots, message);
      if heard.None? {
        ResetHandshakeState();
        return None;
      }
      response := WriteSecond(heard.value, ephemeral);
      if response.None? {
        ResetHandshakeState();
        return None;
      }
      Finish(slots, heard.value.slot);
    }

    /** The last steps of a successful run. */
    method Finish(slots: seq<Slot>, slot: nat)
      requires Laws(crypto) && slot < |slots|
      modifies this
      ensures View() == Establish(crypto, old(View()), slots, slot, old(Sym()))
    {
      SplitTransport();
      authSlot := slot;
      authRole := slots[slot].role;
      ready := true;
    }

    /** `noise_decrypt_packet`. */
    method DecryptPacket(packet: Octets) returns (plaintext: Option<Octets>)
      modifies this`receiveNonce
      ensures (View(), plaintext) == Noise.DecryptPacket(crypto, old(View()), packet)
    {
      if !ready || |packet| < 24 || receiveNonce == NONCE_END { return None; }
      if |packet| - 24 > MAX_PLAINTEXT { return None; }
      var supplied := LeValue(packet[..8]);
      if supplied != receiveNonce { return None; }
      plaintext := crypto.open(receiveKey, receiveNonce, [], packet[8..]);
      if plaintext.Some? {
        receiveNonce := receiveNonce + 1;
      }
    }

    /** `noise_encrypt_transport_ack`. */
    method EncryptTransportAck(status: Byte) returns (packet: Option<Octets>)
      modifies this`sendNonce
      ensures (View(), packet) == EncryptAck(crypto, old(View()), status)
    {
      if !ready || sendNonce == NONCE_END { return None; }
      packet := Some(LeBytes(sendNonce, 8) + crypto.seal(sendKey, sendNonce, [], TRANSPORT_ACK + [status]));
      sendNonce := sendNonce + 1;
    }
  }

  /** `NoiseIKInitiator`. A method that raises in the original returns an absent result, or false. */
  class Initiator {
    const crypto: Crypto
    const priv: Octets
    const public: Octets
    const device: Octets
    var h: Octets
    var ck: Octets
    var key: Octets
    var nonce: nat
    var ephemeral: Option<Octets>
    var keys: Option<(Octets, Octets)>
    var sendNonce: nat
    var receiveNonce: nat

    ghost function Sym(): Symmetric
      reads this
    {
      Symmetric(h, ck, key, nonce)
    }

    ghost function View(): Host
      reads this
    {
      Host(priv, public, device, Sym(), ephemeral, keys, sendNonce, receiveNonce)
    }

    constructor (crypto: Crypto, staticPrivate: Octets, devicePublic: Octets)
      ensures this.crypto == crypto && View() == NewHost(crypto, staticPrivate, devicePublic)
    {
      this.crypto := crypto;
      priv, public, device := staticPrivate, crypto.public(staticPrivate), devicePublic;
      h, ck := crypto.hash(PROTOCOL), crypto.hash(PROTOCOL);
      key, nonce := ZERO32, 0;
      ephemeral, keys, sendNonce, receiveNonce := None, None, 0, 0;
      new;
      MixHash(devicePublic);
    }

    method MixHash(data: Octets)
      modifies this`h
      ensures Sym() == Noise.MixHash(crypto, old(Sym()), data)
    {
      h := crypto.hash(h + data);
    }

    method MixKey(secret: Octets)
      modifies this`ck, this`key, this`nonce
      ensures Sym() == Noise.MixKey(crypto, old(Sym()), secret)
    {
      var prk := crypto.hmac(ck, secret);
      var t1 := crypto.hmac(prk, [1]);
      var t2 := crypto.hmac(prk, t1 + [2]);
      ck, key, nonce := t1, t2, 0;
    }

    method BeginHandshake(fresh_: Octets) returns (message: Option<Octets>)
      modifies this
      ensures View() == AfterBegin(crypto, old(View()), fresh_)
      ensures match Begin(crypto, old(View()), fresh_)
              case None => message == None
              case Some((i, m)) => message == Some(m) && View() == i
    {
      ephemeral := Some(fresh_);
      var ephPublic := crypto.public(fresh_);
      MixHash(ephPublic);
      var es := crypto.exchange(fresh_, device);
      if es.None? { return None; }
      MixKey(es.value);
      var sealed := crypto.seal(key, nonce, h, public);
      nonce := nonce + 1;
      MixHash(sealed);
      var ss := crypto.exchange(priv, device);
      if ss.None? { return None; }
      MixKey(ss.value);
      return Some(ephPublic + sealed);
    }

    method CompleteHandshake(response: Octets) returns (ok: bool)
      modifies this
      ensures View() == AfterComplete(crypto, old(View()), response)
      ensures match Complete(crypto, old(View()), response)
              case None => !ok
              case Some(i) => ok && View() == i
    {
      if ephemeral.None? || |response| != 53 { return false; }
      MixHash(response[..32]);
      var ee := crypto.exchange(ephemeral.value, response[..32]);
      if ee.None? { return false; }
      MixKey(ee.value);
      var se := crypto.exchange(priv, response[..32]);
      if se.None? { return false; }
      MixKey(se.value);
      var ack := crypto.open(key, nonce, h, response[32..]);
      if ack.None? { return false; }
      nonce := nonce + 1;
      MixHash(response[32..]);
      if ack.value != HANDSHAKE_ACK { return false; }
      Split();
      return true;
    }

    method Split()
      modifies this`key, this`keys, this`sendNonce, this`receiveNonce
      ensures View() == SplitHost(crypto, old(View()), old(Sym()))
    {
      var prk := crypto.hmac(ck, []);
      var first := crypto.hmac(prk, [1]);
      var second := crypto.hmac(prk, first + [2]);
      keys, sendNonce, receiveNonce := Some((first, second)), 0, 0;
      key := ZERO32;
    }

    method EncryptPacket(plaintext: Octets) returns (packet: Option<Octets>)
      modifies this`sendNonce
      ensures match Noise.EncryptPacket(crypto, old(View()), plaintext)
              case None => packet == None && View() == old(View())
              case Some((i, p)) => packet == Some(p) && View() == i
    {
      if keys.None? || sendNonce > NONCE_END { return None; }
      packet := Some([CMD_ENCRYPTED] + LeBytes(sendNonce, 8) + crypto.seal(keys.value.0, sendNonce, [], plaintext));
      sendNonce := sendNonce + 1;
    }

    /** Returns exactly on a genuine receipt of status 0; a genuine receipt of any other content uses
        up its nonce before the method raises. */
    method VerifyTransportAck(packet: Octets) returns (ok: bool, ghost receipt: Option<Octets>)
      modifies this`receiveNonce
      ensures (View(), receipt) == VerifyAck(crypto, old(View()), packet)
      ensures ok <==> receipt == Some(TRANSPORT_ACK + [0])
    {
      receipt := None;
      if keys.None? || |packet| != 31 || packet[0] != CMD_ENCRYPTED { return false, receipt; }
      var supplied := LeValue(packet[1..9]);
      if supplied != receiveNonce || receiveNonce > NONCE_END { return false, receipt; }
      var plaintext := crypto.open(keys.value.1, receiveNonce, [], packet[9..]);
      receipt := plaintext;
      if plaintext.None? { return false, receipt; }
      receiveNonce := receiveNonce + 1;
      var p := plaintext.value;
      if |p| != 6 || p[..5] != TRANSPORT_ACK { return false, receipt; }
      var status := p[5];
      assert p == p[..5] + [p[5]];
      return status == 0, receipt;
    }
  }
}

/** The Noise IK handshake and transport of both parties, over any cryptographic suite that obeys
    the laws its primitives really have. */
module NoiseIK {
  import opened Bytes
  import opened ControllerStore

  type Octets = seq<Byte>

  /** SHA-256, HMAC-SHA-256, X25519 key derivation and exchange (which may fail), and
      ChaCha20-Poly1305 under a 64-bit counter nonce. */
  datatype Crypto = Crypto(
    hash: Octets -> Octets,
    hmac: (Octets, Octets) -> Octets,
    public: Octets -> Octets,
    exchange: (Octets, Octets) -> Option<Octets>,
    seal: (Octets, nat, Octets, Octets) -> Octets,
    open: (Octets, nat, Octets, Octets) -> Option<Octets>)

  /** Output sizes, the commuting exchange of section 6.1 of RFC 7748, and a cipher whose opening
      inverts its sealing, both ways, under each key, nonce and associated data. These hold of the
      real primitives without exception. That a ciphertext opens under no other key, nonce or data,
      and that hashes do not collide, cannot be laws: outputs are shorter than inputs. Where a result
      needs them, it says so of the values that one run computes. */
  ghost predicate Laws(c: Crypto) {
    && (forall x :: |c.hash(x)| == 32)
    && (forall k, x :: |c.hmac(k, x)| == 32)
    && (forall a :: |c.public(a)| == 32)
    && (forall a, b :: c.exchange(a, c.public(b)) == c.exchange(b, c.public(a)))
    && (forall k, n, ad, p :: |c.seal(k, n, ad, p)| == |p| + 16)
    && (forall k, n, ad, p :: c.open(k, n, ad, c.seal(k, n, ad, p)) == Some(p))
    && (forall k, n, ad, x :: c.open(k, n, ad, x).Some? ==> x == c.seal(k, n, ad, c.open(k, n, ad, x).value))
  }

  const PROTOCOL: seq<Byte> :=
    [78, 111, 105, 115, 101, 95, 73, 75, 95, 50, 53, 53, 49, 57, 95, 67, 104, 97, 67, 104, 97, 80, 111, 108,
     121, 95, 83, 72, 65, 50, 53, 54]  // "Noise_IK_25519_ChaChaPoly_SHA256"
  const HANDSHAKE_ACK: seq<Byte> := [80, 66, 73, 75, 49]  // "PBIK1"
  const TRANSPORT_ACK: seq<Byte> := [80, 66, 79, 75, 49]  // "PBOK1"
  const NONCE_END: nat := 0xffff_ffff_ffff_ffff
  const MAX_PLAINTEXT: nat := 1038
  const CMD_NOISE: Byte := 5
  const CMD_ENCRYPTED: Byte := 6
  const ZERO32: seq<Byte> := ZERO_KEY

  // ---- Key derivation ----

  /** Block n of HKDF-Expand (section 2.3 of RFC 5869). */
  function Block(c: Crypto, prk: Octets, info: Octets, n: nat): Octets
    requires n <= 255
  {
    if n == 0 then [] else c.hmac(prk, Block(c, prk, info, n - 1) + info + [n])
  }

  function Blocks(c: Crypto, prk: Octets, info: Octets, n: nat): Octets
    requires n <= 255
  {
    if n == 0 then [] else Blocks(c, prk, info, n - 1) + Block(c, prk, info, n)
  }

  /** The library call of the firmware: HKDF of section 2 of RFC 5869 with two blocks of output. */
  function Hkdf(c: Crypto, salt: Octets, ikm: Octets, info: Octets): Octets {
    Blocks(c, c.hmac(salt, ikm), info, 2)
  }

  /** The host's hand-written derivation. */
  function HostKdf(c: Crypto, salt: Octets, ikm: Octets): (Octets, Octets) {
    var prk := c.hmac(salt, ikm);
    var first := c.hmac(prk, [1]);
    (first, c.hmac(prk, first + [2]))
  }

  /** Both derive the same pair of keys. */
  lemma KdfsAgree(c: Crypto, salt: Octets, ikm: Octets)
    requires Laws(c)
    ensures |Hkdf(c, salt, ikm, [])| == 64
    ensures (Hkdf(c, salt, ikm, [])[..32], Hkdf(c, salt, ikm, [])[32..]) == HostKdf(c, salt, ikm)
  {
    var prk := c.hmac(salt, ikm);
    var b1, b2 := Block(c, prk, [], 1), Block(c, prk, [], 2);
    assert Block(c, prk, [], 0) + [] + [1] == [1];
    assert b1 == c.hmac(prk, [1]);
    assert b1 + [] + [2] == b1 + [2];
    assert Blocks(c, prk, [], 1) == [] + b1 == b1;
    assert Blocks(c, prk, [], 2) == b1 + b2;
  }

  // ---- Symmetric state ----

  datatype Symmetric = Symmetric(h: Octets, ck: Octets, key: Octets, nonce: nat)

  function MixHash(c: Crypto, s: Symmetric, data: Octets): Symmetric {
    s.(h := c.hash(s.h + data))
  }

  function MixKey(c: Crypto, s: Symmetric, secret: Octets): Symmetric {
    var (ck, key) := HostKdf(c, s.ck, secret);
    s.(ck := ck, key := key, nonce := 0)
  }

  function EncryptAndHash(c: Crypto, s: Symmetric, plaintext: Octets): (Symmetric, Octets) {
    var sealed := c.seal(s.key, s.nonce, s.h, plaintext);
    (MixHash(c, s.(nonce := s.nonce + 1), sealed), sealed)
  }

  function DecryptAndHash(c: Crypto, s: Symmetric, sealed: Octets): Option<(Symmetric, Octets)> {
    match c.open(s.key, s.nonce, s.h, sealed)
    case None => None
    case Some(p) => Some((MixHash(c, s.(nonce := s.nonce + 1), sealed), p))
  }

  function StartSymmetric(c: Crypto, devicePublic: Octets): Symmetric {
    var h := c.hash(PROTOCOL);
    MixHash(c, Symmetric(h, h, ZERO32, 0), devicePublic)
  }

  // ---- The device (responder) ----

  datatype Device = Device(
    priv: Octets, public: Octets, sym: Symmetric, authSlot: nat, authRole: Byte,
    receiveKey: Octets, sendKey: Octets, receiveNonce: nat, sendNonce: nat, ready: bool)

  /** `reset_handshake_state`. */
  function Reset(c: Crypto, d: Device): Device {
    Device(d.priv, d.public, StartSymmetric(c, d.public), SLOTS, NONE, ZERO32, ZERO32, 0, 0, false)
  }

  /** What the device learns from the first message: the initiator's ephemeral and static keys, the
      slot that holds the latter, and the state after `es`, `s`, `ss`. */
  datatype Heard = Heard(sym: Symmetric, ephemeral: Octets, static_: Octets, slot: nat)

  function Hear(c: Crypto, d: Device, slots: seq<Slot>, message: Octets): Option<Heard>
    requires |message| == 80
  {
    var e := message[..32];
    match c.exchange(d.priv, e)
    case None => None
    case Some(es) =>
      match DecryptAndHash(c, MixKey(c, MixHash(c, StartSymmetric(c, d.public), e), es), message[32..])
      case None => None
      case Some((s, static_)) =>
        match FindFrom(slots, static_, 0)
        case None => None
        case Some(slot) =>
          match c.exchange(d.priv, static_)
          case None => None
          case Some(ss) => Some(Heard(MixKey(c, s, ss), e, static_, slot))
  }

  /** `split_transport`, seen from the device. */
  function SplitDevice(c: Crypto, d: Device, s: Symmetric): Device {
    var (first, second) := HostKdf(c, s.ck, []);
    d.(sym := s.(key := ZERO32), receiveKey := first, sendKey := second, receiveNonce := 0, sendNonce := 0)
  }

  /** The answer: `e`, `ee`, `se`, and the encrypted acknowledgement. */
  function Answer(c: Crypto, d: Device, heard: Heard, ephemeral: Octets): Option<(Symmetric, Octets)> {
    var public := c.public(ephemeral);
    match c.exchange(ephemeral, heard.ephemeral)
    case None => None
    case Some(ee) =>
      match c.exchange(ephemeral, heard.static_)
      case None => None
      case Some(se) =>
        var (s, ack) := EncryptAndHash(c, MixKey(c, MixKey(c, MixHash(c, heard.sym, public), ee), se), HANDSHAKE_ACK);
        Some((s, public + ack))
  }

  /** A finished handshake: transport keys, and the authenticated slot with its role. */
  function Establish(c: Crypto, d: Device, slots: seq<Slot>, slot: nat, s: Symmetric): Device {
    SplitDevice(c, d, s).(authSlot := slot, authRole := if slot < |slots| then slots[slot].role else NONE, ready := true)
  }

  /** `noise_ik_handshake_respond`. */
  function Respond(c: Crypto, d: Device, slots: seq<Slot>, message: Octets, ephemeral: Octets): (Device, Option<Octets>)
  {
    if |message| != 80 then (d, None)
    else
      match Hear(c, d, slots, message)
      case None => (Reset(c, d), None)
      case Some(heard) =>
        match Answer(c, d, heard, ephemeral)
        case None => (Reset(c, d), None)
        case Some((s, response)) => (Establish(c, Reset(c, d), slots, heard.slot, s), Some(response))
  }

  // ---- The host (initiator) ----

  datatype Host = Host(
    priv: Octets, public: Octets, device: Octets, sym: Symmetric, ephemeral: Option<Octets>,
    keys: Option<(Octets, Octets)>, sendNonce: nat, receiveNonce: nat)

  function NewHost(c: Crypto, priv: Octets, device: Octets): Host {
    Host(priv, c.public(priv), device, StartSymmetric(c, device), None, None, 0, 0)
  }

  /** `begin_handshake`; absent when an exchange raises. */
  function Begin(c: Crypto, i: Host, ephemeral: Octets): Option<(Host, Octets)> {
    var public := c.public(ephemeral);
    match c.exchange(ephemeral, i.device)
    case None => None
    case Some(es) =>
      var (s, sealed) := EncryptAndHash(c, MixKey(c, MixHash(c, i.sym, public), es), i.public);
      match c.exchange(i.priv, i.device)
      case None => None
      case Some(ss) => Some((i.(sym := MixKey(c, s, ss), ephemeral := Some(ephemeral)), public + sealed))
  }

  /** The host's object after `begin_handshake`, whether it returned or raised. */
  function AfterBegin(c: Crypto, i: Host, ephemeral: Octets): Host {
    var j := i.(sym := MixHash(c, i.sym, c.public(ephemeral)), ephemeral := Some(ephemeral));
    match c.exchange(ephemeral, i.device)
    case None => j
    case Some(es) =>
      var s := EncryptAndHash(c, MixKey(c, j.sym, es), i.public).0;
      match c.exchange(i.priv, i.device)
      case None => j.(sym := s)
      case Some(ss) => j.(sym := MixKey(c, s, ss))
  }

  /** `_split`: transport keys in the host's order; the handshake key is dropped. */
  function SplitHost(c: Crypto, i: Host, s: Symmetric): Host {
    i.(sym := s.(key := ZERO32), keys := Some(HostKdf(c, s.ck, [])), sendNonce := 0, receiveNonce := 0)
  }

  /** `complete_handshake`; absent when it raises. */
  function Complete(c: Crypto, i: Host, response: Octets): Option<Host> {
    if i.ephemeral.None? || |response| != 53 then None
    else
      var e := response[..32];
      match c.exchange(i.ephemeral.value, e)
      case None => None
      case Some(ee) =>
        match c.exchange(i.priv, e)
        case None => None
        case Some(se) =>
          match DecryptAndHash(c, MixKey(c, MixKey(c, MixHash(c, i.sym, e), ee), se), response[32..])
          case None => None
          case Some((s, ack)) =>
            if ack != HANDSHAKE_ACK then None
            else Some(SplitHost(c, i, s))
  }

  /** The host's object after `complete_handshake`, whether it returned or raised. */
  function AfterComplete(c: Crypto, i: Host, response: Octets): Host {
    if i.ephemeral.None? || |response| != 53 then i
    else
      var e := response[..32];
      var s := MixHash(c, i.sym, e);
      match c.exchange(i.ephemeral.value, e)
      case None => i.(sym := s)
      case Some(ee) =>
        match c.exchange(i.priv, e)
        case None => i.(sym := MixKey(c, s, ee))
        case Some(se) =>
          var t := MixKey(c, MixKey(c, s, ee), se);
          match DecryptAndHash(c, t, response[32..])
          case None => i.(sym := t)
          case Some((u, ack)) => if ack != HANDSHAKE_ACK then i.(sym := u) else SplitHost(c, i, u)
  }

  /** A call that returns leaves the object its success describes. */
  lemma ReturnedAfter(c: Crypto, i: Host, ephemeral: Octets, response: Octets)
    ensures Begin(c, i, ephemeral).Some? ==> AfterBegin(c, i, ephemeral) == Begin(c, i, ephemeral).value.0
    ensures Complete(c, i, response).Some? ==> AfterComplete(c, i, response) == Complete(c, i, response).value
  {
  }

  // ---- Transport ----

  /** `noise_decrypt_packet`: the new device state and the plaintext, if the packet is genuine and
      carries exactly the next nonce. */
  function DecryptPacket(c: Crypto, d: Device, packet: Octets): (Device, Option<Octets>) {
    if !d.ready || |packet| < 24 || d.receiveNonce == NONCE_END || |packet| - 24 > MAX_PLAINTEXT
       || LeValue(packet[..8]) != d.receiveNonce then (d, None)
    else
      match c.open(d.receiveKey, d.receiveNonce, [], packet[8..])
      case None => (d, None)
      case Some(p) => (d.(receiveNonce := d.receiveNonce + 1), Some(p))
  }

  /** `noise_encrypt_transport_ack`. */
  function EncryptAck(c: Crypto, d: Device, status: Byte): (Device, Option<Octets>) {
    if !d.ready || d.sendNonce == NONCE_END then (d, None)
    else
      (d.(sendNonce := d.sendNonce + 1),
       Some(LeBytes(d.sendNonce, 8) + c.seal(d.sendKey, d.sendNonce, [], TRANSPORT_ACK + [status])))
  }

  /** `encrypt_packet`; absent when it raises. */
  function EncryptPacket(c: Crypto, i: Host, plaintext: Octets): Option<(Host, Octets)> {
    if i.keys.None? || i.sendNonce > NONCE_END then None
    else
      Some((i.(sendNonce := i.sendNonce + 1),
            [CMD_ENCRYPTED] + LeBytes(i.sendNonce, 8) + c.seal(i.keys.value.0, i.sendNonce, [], plaintext)))
  }

  /** `verify_transport_ack`: the receipt's plaintext once it is genuine; the nonce advances even if
      the status it carries then makes the host raise. */
  function VerifyAck(c: Crypto, i: Host, packet: Octets): (Host, Option<Octets>) {
    if i.keys.None? || |packet| != 31 || packet[0] != CMD_ENCRYPTED
       || LeValue(packet[1..9]) != i.receiveNonce || i.receiveNonce > NONCE_END then (i, None)
    else
      match c.open(i.keys.value.1, i.receiveNonce, [], packet[9..])
      case None => (i, None)
      case Some(p) => (i.(receiveNonce := i.receiveNonce + 1), Some(p))
  }
}

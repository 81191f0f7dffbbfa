/** A small suite that obeys the laws assumed of the real one, to show that what is assumed is
    consistent and that integrity is not implied by it. */
module ToySuite {
  import opened Bytes
  import opened ControllerStore
  import opened NoiseIK
  import opened NoiseAgreement

  type Tag = (Octets, nat, Octets) -> Octets

  const ZERO_TAG: Octets := [0, 0, 0, 0, 0, 0, 0, 0, 0, 0, 0, 0, 0, 0, 0, 0]

  /** A tag that tells keys, nonces and transcripts apart a little, and one that does not. */
  const KEYED: Tag := (k, n, ad) => (if |k| > 0 && |ad| > 1 then [k[0], n % 256, ad[0], ad[1]] else [0, n % 256, 0, 0]) + ZERO_TAG[4..]
  const KEYLESS: Tag := (k, n, ad) => ZERO_TAG

  function Plus(a: Byte, b: int): Byte {
    (a + b) % 256
  }

  /** The first output byte counts up; the second depends on the last byte of the input. */
  function ToyHash(x: Octets): (h: Octets)
    ensures |h| == 32
  {
    if |x| < 2 then ZERO32 else [Plus(x[0], 1), Plus(x[1], x[|x| - 1])] + ZERO32[2..]
  }

  function ToyOpen(tag: Octets, x: Octets): Option<Octets>
    requires |tag| == 16
  {
    if |x| >= 16 && x[|x| - 16..] == tag then Some(x[..|x| - 16]) else None
  }

  lemma ToyInverse(tag: Octets, p: Octets, x: Octets)
    requires |tag| == 16
    ensures ToyOpen(tag, p + tag) == Some(p)
    ensures ToyOpen(tag, x).Some? ==> x == ToyOpen(tag, x).value + tag
  {
    assert (p + tag)[|p|..] == tag && (p + tag)[..|p|] == p;
  }

  ghost predicate TagOk(tag: Tag) {
    forall k, n, ad :: |tag(k, n, ad)| == 16
  }

  function Toy(tag: Tag): Crypto {
    Crypto(x => ToyHash(x), (k, x) => ZERO32, a => ZERO32, (a, b) => Some(ZERO32),
           (k, n, ad, p) => p + tag(k, n, ad),
           (k, n, ad, x) => if |tag(k, n, ad)| == 16 then ToyOpen(tag(k, n, ad), x) else None)
  }

  /** The laws are consistent: a toy suite obeys them, whatever its tags depend on. */
  lemma LawsCanHold(tag: Tag)
    requires TagOk(tag)
    ensures Laws(Toy(tag))
  {
    forall k, n, ad, p
      ensures Toy(tag).open(k, n, ad, Toy(tag).seal(k, n, ad, p)) == Some(p)
    {
      ToyInverse(tag(k, n, ad), p, p);
    }
    forall k, n, ad, x | Toy(tag).open(k, n, ad, x).Some?
      ensures x == Toy(tag).seal(k, n, ad, Toy(tag).open(k, n, ad, x).value)
    {
      ToyInverse(tag(k, n, ad), x, x);
    }
  }

  /** In an honest run over any suite the cipher's half of integrity costs nothing. */
  lemma HonestIsGenuine(c: Crypto, o: Opening)
    requires Laws(c) && Opened(c, o) && Hosted(c, o)
    ensures Integrity(c, o, Told(c, o)) <==> NoCollisions(c, o, c.public(o.ed))
  {
    DeviceHalf(c, o);
    HeardWhatWasSaid(c, o.host, o.device, o.slots, o.eh);
    var r := Told(c, o);
    assert r[..32] == c.public(o.ed) && r[32..] == SealedBytes(c, AckSealing(c, o));
    forall ee, se | c.exchange(o.eh, r[..32]) == Some(ee) && c.exchange(o.host.priv, r[..32]) == Some(se)
      ensures Genuine(c, [StaticSealing(c, o), AckSealing(c, o)], BeforeAck(c, Asking(c, o).sym, r[..32], ee, se), r[32..])
    {
      assert BeforeAck(c, Asking(c, o).sym, r[..32], ee, se) == AckState(c, o);
      assert AckSealing(c, o) in [StaticSealing(c, o), AckSealing(c, o)];
    }
  }

  const TOY_DEVICE := Device([], ZERO32, Symmetric([], [], [], 0), SLOTS, NONE, ZERO32, ZERO32, 0, 0, false)

  /** A host and a device of the toy suite, with the host's message delivered. */
  function ToyOpening(tag: Tag): Opening {
    var c := Toy(tag);
    var i := NewHost(c, [], ZERO32);
    Opening(i, TOY_DEVICE, [Slot(OPERATOR, ZERO32)], Begin(c, i, []).value.1, [], [])
  }

  lemma ToyRun(tag: Tag)
    requires TagOk(tag)
    ensures Laws(Toy(tag)) && Opened(Toy(tag), ToyOpening(tag)) && Hosted(Toy(tag), ToyOpening(tag))
  {
    LawsCanHold(tag);
    var c, o := Toy(tag), ToyOpening(tag);
    HeardWhatWasSaid(c, o.host, o.device, o.slots, []);
    AnswersExactlyTheEnrolled(c, o.host, o.device, o.slots, [], []);
  }

  lemma ToyStep(x: Octets, y: Octets)
    requires |x| == 32 && y != []
    ensures ToyHash(x + y)[0] == Plus(x[0], 1) && ToyHash(x + y)[1] == Plus(x[1], y[|y| - 1])
  {
    assert (x + y)[|x + y| - 1] == y[|y| - 1];
  }

  lemma ToyStart()
    ensures ToyHash(PROTOCOL)[0] == 79
  {
  }

  /** In a toy transcript the first bytes of the hashes count from 80 to 83. */
  lemma ToyTranscript(p: Octets, e: Octets, s: Octets, e2: Octets)
    requires p != [] && e != [] && s != [] && e2 != []
    ensures var xs := HashInputs(Toy(KEYED), p, e, s, e2);
            forall k | 0 <= k < 4 :: ToyHash(xs[k])[0] == 80 + k
  {
    hide ToyHash;
    var xs := HashInputs(Toy(KEYED), p, e, s, e2);
    ToyStart();
    ToyStep(ToyHash(PROTOCOL), p);
    ToyStep(ToyHash(xs[0]), e);
    ToyStep(ToyHash(xs[1]), s);
    ToyStep(ToyHash(xs[2]), e2);
  }

  /** Integrity can hold: a run of the toy suite has it. */
  lemma IntegrityCanHold()
    ensures var c, o := Toy(KEYED), ToyOpening(KEYED);
            Laws(c) && Opened(c, o) && Hosted(c, o) && Integrity(c, o, Told(c, o))
  {
    hide ToyHash, Respond, Begin, Hear, HashInputs;
    ToyRun(KEYED);
    var c, o := Toy(KEYED), ToyOpening(KEYED);
    HonestIsGenuine(c, o);
    HostSends(c, o);
    var s := SealedBytes(c, StaticSealing(c, o));
    ToyTranscript(o.host.device, c.public(o.eh), s, c.public(o.ed));
    assert o.message[..32] == c.public(o.eh) && o.message[32..] == s;
    NoCollisionsTwice(c, HashInputs(c, o.host.device, c.public(o.eh), s, c.public(o.ed)));
  }

  lemma NoCollisionsTwice(c: Crypto, xs: seq<Octets>)
    requires |xs| == 4 && forall k | 0 <= k < 4 :: |c.hash(xs[k])| == 32 && c.hash(xs[k])[0] == 80 + k
    ensures CollisionFree(c, xs + xs)
  {
  }

  lemma HostSends(c: Crypto, o: Opening)
    requires Laws(c) && Opened(c, o) && Hosted(c, o)
    ensures o.message == c.public(o.eh) + SealedBytes(c, StaticSealing(c, o))
  {
  }

  /** Integrity is needed: over a suite that obeys the laws but whose tags ignore key, nonce and
      transcript, a response altered in its first half is accepted, and the two sides end with
      different transcripts. */
  lemma AlteredResponse() returns (response: Octets)
    ensures var c, o := Toy(KEYLESS), ToyOpening(KEYLESS);
            && Laws(c) && Opened(c, o) && Hosted(c, o) && response != Told(c, o)
            && Complete(c, Asking(c, o), response).Some?
            && Complete(c, Asking(c, o), response).value.sym.h != Session(c, o).sym.h
  {
    hide ToyHash, Respond, Begin, Hear, Complete, Laws, Opened, Hosted, Toy, ToyOpening;
    ToyRun(KEYLESS);
    var c, o := Toy(KEYLESS), ToyOpening(KEYLESS);
    var e2: Octets := ZERO32[31 := 1];
    var ack: Octets := HANDSHAKE_ACK + ZERO_TAG;
    response := e2 + ack;
    ToyAccepts(c, o, e2, ack);
    EndsDiffer(Asking(c, o).sym.h, e2, ZERO32, ack);
    assert response[..32] == e2;
  }

  lemma EndsDiffer(h: Octets, x: Octets, y: Octets, ack: Octets)
    requires |h| == 32 && |x| == |y| == 32 && x[31] == 1 && y[31] == 0 && ack != []
    ensures ToyHash(ToyHash(h + x) + ack) != ToyHash(ToyHash(h + y) + ack)
  {
    hide ToyHash;
    ToyStep(h, x);
    ToyStep(h, y);
    ToyStep(ToyHash(h + x), ack);
    ToyStep(ToyHash(h + y), ack);
  }

  /** Any first half will do for the keyless suite. */
  lemma ToyAccepts(c: Crypto, o: Opening, e2: Octets, ack: Octets)
    requires c == Toy(KEYLESS) && o == ToyOpening(KEYLESS) && Laws(c) && Opened(c, o) && Hosted(c, o)
    requires |e2| == 32 && ack == HANDSHAKE_ACK + ZERO_TAG
    ensures |Asking(c, o).sym.h| == 32
    ensures Complete(c, Asking(c, o), e2 + ack).Some?
    ensures Complete(c, Asking(c, o), e2 + ack).value.sym.h == ToyHash(ToyHash(Asking(c, o).sym.h + e2) + ack)
    ensures |Told(c, o)| == 53 && Told(c, o)[..32] == ZERO32
    ensures Session(c, o).sym.h == ToyHash(ToyHash(Asking(c, o).sym.h + ZERO32) + ack)
  {
    hide ToyHash;
    DeviceHalf(c, o);
    HeardWhatWasSaid(c, o.host, o.device, o.slots, o.eh);
    assert (e2 + ack)[..32] == e2 && (e2 + ack)[32..] == ack;
    ToyInverse(ZERO_TAG, HANDSHAKE_ACK, ack);
  }
}

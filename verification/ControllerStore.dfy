/** The controller trust store: its rules, its 188-byte flash record, and the operations that
    change it. */
module ControllerStore {
  import opened Bytes
  import opened Crc

  const SLOTS: nat := 5
  const KEY_LEN: nat := 32
  const MAGIC: nat := 0x5042_4353
  const SCHEMA: nat := 1
  const COMMIT: nat := 0x4353_4d54

  const NONE: Byte := 0
  const OPERATOR: Byte := 1
  const ADMIN: Byte := 2
  const RECOVERY: Byte := 3

  datatype Status = Ok | ErrArgument | ErrFormat | ErrFull | ErrDuplicate | ErrRole | ErrImmutable | ErrNotFound

  datatype Slot = Slot(role: Byte, key: seq<Byte>)

  /** `controller_store_t`. */
  datatype Store = Store(generation: nat, slots: seq<Slot>)

  const ZERO_KEY: seq<Byte> :=
    [0, 0, 0, 0, 0, 0, 0, 0, 0, 0, 0, 0, 0, 0, 0, 0, 0, 0, 0, 0, 0, 0, 0, 0, 0, 0, 0, 0, 0, 0, 0, 0]
  const EMPTY_SLOT := Slot(NONE, ZERO_KEY)

  ghost predicate Shaped(s: Store) {
    && s.generation < TWO_32 && |s.slots| == SLOTS
    && forall i | 0 <= i < SLOTS :: |s.slots[i].key| == KEY_LEN
  }

  // ---- The rules of a trust store ----

  predicate SlotLegal(s: Slot) {
    s.role <= RECOVERY && (s.role == NONE <==> s.key == ZERO_KEY)
  }

  predicate Clash(s: Slot, t: Slot) {
    s.role != NONE && t.role != NONE && s.key == t.key
  }

  /** Every slot legal, no key enrolled twice, and the recovery administrator in slot 0 only. */
  predicate WellFormed(slots: seq<Slot>)
    requires |slots| == SLOTS
  {
    && (forall i | 0 <= i < SLOTS :: SlotLegal(slots[i]))
    && (forall i, j | 0 <= j < i < SLOTS :: !Clash(slots[i], slots[j]))
    && slots[0].role == RECOVERY
    && (forall i | 1 <= i < SLOTS :: slots[i].role != RECOVERY)
  }

  // ---- The flash record ----

  function SlotBytes(s: Slot): seq<Byte> {
    [s.role] + s.key
  }

  function SlotsBytes(slots: seq<Slot>): seq<Byte> {
    if slots == [] then [] else SlotsBytes(slots[..|slots| - 1]) + SlotBytes(slots[|slots| - 1])
  }

  function Header(generation: nat): (s: seq<Byte>)
    ensures |s| == 12
  {
    LeBytes(MAGIC, 4) + LeBytes(SCHEMA, 2) + LeBytes(0, 2) + LeBytes(generation, 4)
  }

  /** The checksummed part: header, slots, and three alignment bytes left at 0xff. */
  function Body(s: Store): seq<Byte> {
    Header(s.generation) + SlotsBytes(s.slots) + [255, 255, 255]
  }

  /** `controller_store_record_t`. */
  function Record(s: Store): seq<Byte> {
    Body(s) + LeBytes(Crc32(Body(s)), 4) + LeBytes(COMMIT, 4)
  }

  /** `controller_store_encode` into a sector-sized buffer. */
  function Image(s: Store): seq<Byte> {
    Record(s) + Erased(3908)
  }

  function Erased(n: nat): (s: seq<Byte>)
    ensures |s| == n && forall i | 0 <= i < n :: s[i] == 255
  {
    seq(n, i => 255)
  }

  function SlotAt(data: seq<Byte>, i: nat): Slot
    requires i < SLOTS && 177 <= |data|
  {
    Slot(data[12 + 33 * i], data[13 + 33 * i..45 + 33 * i])
  }

  function SlotsAt(data: seq<Byte>): (slots: seq<Slot>)
    requires 177 <= |data|
    ensures |slots| == SLOTS && forall i | 0 <= i < SLOTS :: slots[i] == SlotAt(data, i)
  {
    seq(SLOTS, i requires 0 <= i < SLOTS => SlotAt(data, i))
  }

  /** The fixed words of a record and its checksum. */
  predicate Sealed(data: seq<Byte>)
    requires 188 <= |data|
  {
    && LeValue(data[0..4]) == MAGIC && LeValue(data[4..6]) == SCHEMA && LeValue(data[6..8]) == 0
    && LeValue(data[184..188]) == COMMIT
    && LeValue(data[180..184]) == Crc32(data[..180])
  }

  /** `record_valid`: the store a sector holds, if it holds one. */
  function ReadRecord(data: seq<Byte>): (r: Option<Store>)
    ensures r.Some? ==> Shaped(r.value) && WellFormed(r.value.slots)
  {
    if |data| < 188 || !Sealed(data) || !WellFormed(SlotsAt(data)) then None
    else
      PowValues();
      Some(Store(LeValue(data[8..12]), SlotsAt(data)))
  }

  // ---- The record codec ----

  lemma {:induction false} SlotsBytesLength(slots: seq<Slot>)
    requires forall i | 0 <= i < |slots| :: |slots[i].key| == KEY_LEN
    ensures |SlotsBytes(slots)| == 33 * |slots|
  {
    if slots != [] {
      SlotsBytesLength(slots[..|slots| - 1]);
    }
  }

  lemma {:induction false} SlotsBytesAt(slots: seq<Slot>, i: nat)
    requires i < |slots| && forall k | 0 <= k < |slots| :: |slots[k].key| == KEY_LEN
    ensures 33 * (i + 1) <= |SlotsBytes(slots)|
    ensures SlotsBytes(slots)[33 * i..33 * (i + 1)] == SlotBytes(slots[i])
  {
    var last := |slots| - 1;
    SlotsBytesLength(slots);
    SlotsBytesLength(slots[..last]);
    if i < last {
      SlotsBytesAt(slots[..last], i);
      assert SlotsBytes(slots)[33 * i..33 * (i + 1)] == SlotsBytes(slots[..last])[33 * i..33 * (i + 1)];
    }
  }

  lemma BodyParts(s: Store)
    requires Shaped(s)
    ensures |Body(s)| == 180
    ensures Body(s)[..12] == Header(s.generation)
    ensures SlotsAt(Body(s)) == s.slots
  {
    SlotsBytesLength(s.slots);
    var b := Body(s);
    forall i: nat | i < SLOTS
      ensures SlotAt(b, i) == s.slots[i]
    {
      SlotsBytesAt(s.slots, i);
      assert b[12 + 33 * i..45 + 33 * i] == SlotsBytes(s.slots)[33 * i..33 * (i + 1)];
      assert b[12 + 33 * i] == b[12 + 33 * i..45 + 33 * i][0];
      assert b[13 + 33 * i..45 + 33 * i] == b[12 + 33 * i..45 + 33 * i][1..];
    }
  }

  lemma HeaderParts(g: nat)
    requires g < TWO_32
    ensures LeValue(Header(g)[0..4]) == MAGIC && LeValue(Header(g)[4..6]) == SCHEMA
    ensures LeValue(Header(g)[6..8]) == 0 && LeValue(Header(g)[8..12]) == g
  {
    PowValues();
    FourParts(LeBytes(MAGIC, 4), LeBytes(SCHEMA, 2), LeBytes(0, 2), LeBytes(g, 4));
    LeRoundTrip(MAGIC, 4);
    LeRoundTrip(SCHEMA, 2);
    LeRoundTrip(0, 2);
    LeRoundTrip(g, 4);
  }

  lemma FourParts(a: seq<Byte>, b: seq<Byte>, c: seq<Byte>, d: seq<Byte>)
    requires |a| == 4 && |b| == 2 && |c| == 2 && |d| == 4
    ensures var h := a + b + c + d; h[0..4] == a && h[4..6] == b && h[6..8] == c && h[8..12] == d
  {
  }

  lemma ImageParts(s: Store)
    requires Shaped(s)
    ensures |Image(s)| == 4096
    ensures Image(s)[..180] == Body(s)
    ensures Image(s)[180..184] == LeBytes(Crc32(Body(s)), 4)
    ensures Image(s)[184..188] == LeBytes(COMMIT, 4)
  {
    BodyParts(s);
    ImageSlices(Body(s), LeBytes(Crc32(Body(s)), 4), LeBytes(COMMIT, 4), Erased(3908));
  }

  lemma ImageSlices(body: seq<Byte>, crc: seq<Byte>, mark: seq<Byte>, rest: seq<Byte>)
    requires |body| == 180 && |crc| == 4 && |mark| == 4
    ensures var im := body + crc + mark + rest;
            im[..180] == body && im[180..184] == crc && im[184..188] == mark
  {
  }

  lemma ImageSealed(s: Store)
    requires Shaped(s)
    ensures |Image(s)| == 4096 && Sealed(Image(s))
    ensures LeValue(Image(s)[8..12]) == s.generation && SlotsAt(Image(s)) == s.slots
  {
    var im, b := Image(s), Body(s);
    ImageParts(s);
    BodyParts(s);
    HeaderParts(s.generation);
    CrcRegister(b);
    PowValues();
    LeRoundTrip(Crc32(b), 4);
    LeRoundTrip(COMMIT, 4);
    SamePrefix(im, b, Header(s.generation));
    forall i: nat | i < SLOTS
      ensures SlotAt(im, i) == SlotAt(b, i)
    {
      assert im[..180][12 + 33 * i] == b[12 + 33 * i];
      assert im[13 + 33 * i..45 + 33 * i] == im[..180][13 + 33 * i..45 + 33 * i];
    }
  }

  lemma SamePrefix(im: seq<Byte>, b: seq<Byte>, h: seq<Byte>)
    requires 180 <= |im| && im[..180] == b && b[..12] == h
    ensures im[0..4] == h[0..4] && im[4..6] == h[4..6] && im[6..8] == h[6..8] && im[8..12] == h[8..12]
  {
    assert im[..12] == im[..180][..12] == h;
    assert im[0..4] == im[..12][0..4] && im[4..6] == im[..12][4..6];
    assert im[6..8] == im[..12][6..8] && im[8..12] == im[..12][8..12];
  }

  /** Reading back what was encoded gives exactly that store, or nothing if it breaks a rule. */
  lemma EncodeThenRead(s: Store)
    requires Shaped(s)
    ensures ReadRecord(Image(s)) == if WellFormed(s.slots) then Some(s) else None
  {
    ImageSealed(s);
  }

  /** A valid record changed only within four consecutive checksummed bytes is no record. */
  lemma BurstRejected(data: seq<Byte>, other: seq<Byte>, at: nat)
    requires ReadRecord(data).Some? && |other| == |data| && other != data
    requires at + 4 <= 180 && data[..at] == other[..at] && data[at + 4..] == other[at + 4..]
    ensures ReadRecord(other) == None
  {
    hide Crc32, LeValue, WellFormed;
    var x, y := data[..180], other[..180];
    SameBurst(data, other, at);
    if Crc32(x) == Crc32(y) {
      DetectsFourByteBurst(x, y, at);
      assert false;
    }
  }

  /** Two records that differ only inside four checksummed bytes differ in what is checksummed, and not
      in the checksum. */
  lemma SameBurst(data: seq<Byte>, other: seq<Byte>, at: nat)
    requires |other| == |data| >= 188 && other != data
    requires at + 4 <= 180 && data[..at] == other[..at] && data[at + 4..] == other[at + 4..]
    ensures data[..180] != other[..180] && data[..180][..at] == other[..180][..at]
    ensures data[..180][at + 4..] == other[..180][at + 4..] && data[180..184] == other[180..184]
  {
    var n := at + 4;
    assert data[..180][..at] == data[..at] && other[..180][..at] == other[..at];
    assert data[..180][n..] == data[n..][..180 - n] && other[..180][n..] == other[n..][..180 - n];
    SubSlice(data, n, |data|, 180, 184);
    SubSlice(other, n, |data|, 180, 184);
    assert data[n..|data|] == data[n..] && other[n..|data|] == other[n..];
    assert data[180..] == data[n..][180 - n..] && other[180..] == other[n..][180 - n..];
    assert data == data[..180] + data[180..] && other == other[..180] + other[180..];
  }

  // ---- Operations ----

  /** `controller_store_initialise`. */
  function Initialise(recovery: seq<Byte>): Option<Store> {
    if recovery == ZERO_KEY then None
    else Some(Store(1, [Slot(RECOVERY, recovery), EMPTY_SLOT, EMPTY_SLOT, EMPTY_SLOT, EMPTY_SLOT]))
  }

  /** `controller_store_find`: the first enrolled slot with that key, from position `i`. */
  function FindFrom(slots: seq<Slot>, key: seq<Byte>, i: nat): (r: Option<nat>)
    requires i <= |slots|
    ensures r.Some? ==> r.value < |slots| && slots[r.value].role != NONE && slots[r.value].key == key
    ensures r.None? ==> forall k | i <= k < |slots| :: slots[k].role == NONE || slots[k].key != key
    decreases |slots| - i
  {
    if i == |slots| then None
    else if slots[i].role != NONE && slots[i].key == key then Some(i)
    else FindFrom(slots, key, i + 1)
  }

  predicate IsAdmin(s: Store, slot: nat)
    requires |s.slots| == SLOTS
  {
    slot < SLOTS && (s.slots[slot].role == ADMIN || s.slots[slot].role == RECOVERY)
  }

  function FreeFrom(slots: seq<Slot>, i: nat): (r: Option<nat>)
    requires i <= |slots|
    ensures r.Some? ==> i <= r.value < |slots| && slots[r.value].role == NONE
    ensures r.None? ==> forall k | i <= k < |slots| :: slots[k].role != NONE
    decreases |slots| - i
  {
    if i == |slots| then None
    else if slots[i].role == NONE then Some(i)
    else FreeFrom(slots, i + 1)
  }

  function Bump(generation: nat): nat {
    (generation + 1) % TWO_32
  }

  /** `controller_store_add`. */
  function Add(s: Store, caller: nat, key: seq<Byte>, role: Byte): (r: (Store, Status))
    requires |s.slots| == SLOTS
    ensures Shaped(s) && |key| == KEY_LEN ==> Shaped(r.0)
  {
    if key == ZERO_KEY || (role != OPERATOR && role != ADMIN) then (s, ErrArgument)
    else if !IsAdmin(s, caller) then (s, ErrRole)
    else if FindFrom(s.slots, key, 0).Some? then (s, ErrDuplicate)
    else
      match FreeFrom(s.slots, 1)
      case None => (s, ErrFull)
      case Some(i) => (Store(Bump(s.generation), s.slots[i := Slot(role, key)]), Ok)
  }

  /** `controller_store_revoke`. */
  function Revoke(s: Store, caller: nat, target: nat): (r: (Store, Status))
    requires |s.slots| == SLOTS
    ensures Shaped(s) ==> Shaped(r.0)
  {
    if caller >= SLOTS || target >= SLOTS then (s, ErrArgument)
    else if !IsAdmin(s, caller) then (s, ErrRole)
    else if target == 0 then (s, ErrImmutable)
    else if s.slots[target].role == NONE then (s, ErrNotFound)
    else (Store(Bump(s.generation), s.slots[target := EMPTY_SLOT]), Ok)
  }

  ghost predicate Good(s: Store) {
    Shaped(s) && WellFormed(s.slots)
  }

  lemma InitialiseGood(recovery: seq<Byte>)
    requires |recovery| == KEY_LEN
    ensures recovery != ZERO_KEY ==> Good(Initialise(recovery).value)
  {
  }

  /** Adding keeps every rule, bumps the generation, touches only one free slot other than 0, and
      makes exactly the new key findable there. */
  lemma AddKeepsRules(s: Store, caller: nat, key: seq<Byte>, role: Byte)
    requires Good(s) && |key| == KEY_LEN && Add(s, caller, key, role).1 == Ok
    ensures var t := Add(s, caller, key, role).0;
            && Good(t) && t.generation == Bump(s.generation)
            && exists i | 1 <= i < SLOTS :: s.slots[i] == EMPTY_SLOT && t.slots == s.slots[i := Slot(role, key)]
    ensures forall k: seq<Byte> :: k != key ==>
              FindFrom(Add(s, caller, key, role).0.slots, k, 0) == FindFrom(s.slots, k, 0)
  {
    var i := FreeFrom(s.slots, 1).value;
    var t := Add(s, caller, key, role).0;
    assert SlotLegal(s.slots[i]);
    forall k: seq<Byte> | k != key
      ensures FindFrom(t.slots, k, 0) == FindFrom(s.slots, k, 0)
    {
      FindUnaffected(s.slots, t.slots, k, i, 0);
    }
  }

  lemma {:induction false} FindUnaffected(a: seq<Slot>, b: seq<Slot>, key: seq<Byte>, at: nat, i: nat)
    requires |a| == |b| && i <= |a| && at < |a| && b == a[at := b[at]]
    requires a[at].role == NONE || a[at].key != key
    requires b[at].role == NONE || b[at].key != key
    ensures FindFrom(a, key, i) == FindFrom(b, key, i)
    decreases |a| - i
  {
    if i < |a| {
      FindUnaffected(a, b, key, at, i + 1);
    }
  }

  /** Revoking keeps every rule and removes exactly the target, which is never slot 0. */
  lemma RevokeKeepsRules(s: Store, caller: nat, target: nat)
    requires Good(s) && Revoke(s, caller, target).1 == Ok
    ensures var t := Revoke(s, caller, target).0;
            && Good(t) && t.generation == Bump(s.generation)
            && 0 < target < SLOTS && t.slots == s.slots[target := EMPTY_SLOT]
            && FindFrom(t.slots, s.slots[target].key, 0) == None
  {
    var t := Revoke(s, caller, target).0;
    var key := s.slots[target].key;
    match FindFrom(t.slots, key, 0)
    case None =>
    case Some(i) =>
      assert i != target && s.slots[i] == t.slots[i];
      assert Clash(s.slots[i], s.slots[target]) && Clash(s.slots[target], s.slots[i]);
      assert false;
  }

  /** Revoking the slot an add has just filled restores the roster. */
  lemma RevokeUndoesAdd(s: Store, caller: nat, key: seq<Byte>, role: Byte)
    requires Good(s) && |key| == KEY_LEN && Add(s, caller, key, role).1 == Ok
    ensures var t := Add(s, caller, key, role).0; var found := FindFrom(t.slots, key, 0);
            found.Some? && Revoke(t, caller, found.value).1 == Ok && Revoke(t, caller, found.value).0.slots == s.slots
  {
    AddKeepsRules(s, caller, key, role);
    var t := Add(s, caller, key, role).0;
    var i := FreeFrom(s.slots, 1).value;
    var found := FindFrom(t.slots, key, 0);
    assert found.Some? by {
      assert t.slots[i].key == key && t.slots[i].role != NONE;
    }
    assert found.value == i by {
      assert forall k | 0 <= k < SLOTS && k != i :: t.slots[k] == s.slots[k];
    }
    assert caller != i;
    assert t.slots[i := EMPTY_SLOT] == s.slots;
  }

  /** In a well-formed store a key is enrolled in at most one slot, so searching is exact. */
  lemma FindExact(s: Store, key: seq<Byte>, i: nat)
    requires Good(s) && i < SLOTS && s.slots[i].role != NONE && s.slots[i].key == key
    ensures FindFrom(s.slots, key, 0) == Some(i)
  {
    var f := FindFrom(s.slots, key, 0).value;
    if f != i {
      assert Clash(s.slots[f], s.slots[i]) && Clash(s.slots[i], s.slots[f]);
      assert false;
    }
  }
}

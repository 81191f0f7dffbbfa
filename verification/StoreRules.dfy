/** The trust store's promises in its own numbers: who may change it and how, which rosters are legal,
    and the bytes of its record. Roles: 0 none, 1 operator, 2 administrator, 3 recovery administrator. */
module StoreRules {
  import opened Bytes
  import opened Crc
  import opened ControllerStore

  // ---- Who may change the roster ----

  predicate Administers(s: Store, caller: nat)
    requires |s.slots| == 5
  {
    caller < 5 && s.slots[caller].role in {2, 3}
  }

  predicate ZeroKey(key: seq<Byte>)
    requires |key| == 32
  {
    forall i | 0 <= i < 32 :: key[i] == 0
  }

  predicate Enrolled(s: Store, key: seq<Byte>)
    requires |s.slots| == 5
  {
    exists i | 0 <= i < 5 :: s.slots[i].role != 0 && s.slots[i].key == key
  }

  predicate Full(s: Store)
    requires |s.slots| == 5
  {
    forall i | 1 <= i < 5 :: s.slots[i].role != 0
  }

  function Next(generation: nat): nat {
    if generation == 0xffff_ffff then 0 else generation + 1
  }

  lemma ZeroKeyIs(key: seq<Byte>)
    requires |key| == 32
    ensures ZeroKey(key) <==> key == ZERO_KEY
  {
    assert forall i | 0 <= i < 32 :: ZERO_KEY[i] == 0;
  }

  /** Adding, case by case: an administrator alone can, only operators and administrators can be added,
      and the new controller takes the first free slot after slot 0. */
  lemma AddAnswers(s: Store, caller: nat, key: seq<Byte>, role: Byte)
    requires Shaped(s) && |key| == 32
    ensures var (t, status) := Add(s, caller, key, role);
            && (status != Ok ==> t == s)
            && (if ZeroKey(key) || role !in {1, 2} then status == ErrArgument
                else if !Administers(s, caller) then status == ErrRole
                else if Enrolled(s, key) then status == ErrDuplicate
                else if Full(s) then status == ErrFull
                else
                  && status == Ok && t.generation == Next(s.generation)
                  && exists i | 1 <= i < 5 ::
                       && s.slots[i].role == 0 && (forall j | 1 <= j < i :: s.slots[j].role != 0)
                       && t.slots == s.slots[i := Slot(role, key)])
  {
    ZeroKeyIs(key);
    if Add(s, caller, key, role).1 == Ok {
      FirstFree(s.slots, 1);
    }
  }

  lemma {:induction false} FirstFree(slots: seq<Slot>, i: nat)
    requires i <= |slots| && FreeFrom(slots, i).Some?
    ensures forall j | i <= j < FreeFrom(slots, i).value :: slots[j].role != 0
    decreases |slots| - i
  {
    if slots[i].role != NONE {
      FirstFree(slots, i + 1);
    }
  }

  /** Revoking, case by case: an administrator alone can, and never slot 0. */
  lemma RevokeAnswers(s: Store, caller: nat, target: nat)
    requires Shaped(s)
    ensures var (t, status) := Revoke(s, caller, target);
            && (status != Ok ==> t == s)
            && (if caller >= 5 || target >= 5 then status == ErrArgument
                else if !Administers(s, caller) then status == ErrRole
                else if target == 0 then status == ErrImmutable
                else if s.slots[target].role == 0 then status == ErrNotFound
                else
                  && status == Ok && t.generation == Next(s.generation)
                  && t.slots == s.slots[target := Slot(0, seq(32, i => 0))])
  {
    var zero: seq<Byte> := seq(32, i => 0);
    ZeroKeyIs(zero);
  }

  lemma InitialiseAnswers(recovery: seq<Byte>)
    requires |recovery| == 32
    ensures ZeroKey(recovery) <==> Initialise(recovery).None?
    ensures !ZeroKey(recovery) ==>
              var s := Initialise(recovery).value;
              && s.generation == 1 && |s.slots| == 5 && s.slots[0] == Slot(3, recovery)
              && forall i | 1 <= i < 5 :: s.slots[i] == Slot(0, seq(32, i => 0))
  {
    ZeroKeyIs(recovery);
    ZeroKeyIs(seq(32, i => 0));
  }

  // ---- Legal rosters ----

  /** A roster is legal exactly when empty slots hold zero keys, enrolled keys are non-zero and pairwise
      different, roles are 0 to 3, and slot 0 and no other holds the recovery administrator. */
  lemma LegalRosters(s: Store)
    requires Shaped(s)
    ensures Good(s) <==>
              && (forall i | 0 <= i < 5 ::
                    0 <= s.slots[i].role <= 3 && (s.slots[i].role == 0 <==> ZeroKey(s.slots[i].key)))
              && (forall i, j | 0 <= i < j < 5 && s.slots[i].role != 0 && s.slots[j].role != 0 :: s.slots[i].key != s.slots[j].key)
              && (forall i | 0 <= i < 5 :: s.slots[i].role == 3 <==> i == 0)
  {
    forall i | 0 <= i < 5
      ensures ZeroKey(s.slots[i].key) <==> s.slots[i].key == ZERO_KEY
    {
      ZeroKeyIs(s.slots[i].key);
    }
    assert Good(s) <==> WellFormed(s.slots);
    if WellFormed(s.slots) {
      forall i, j | 0 <= i < j < 5 && s.slots[i].role != 0 && s.slots[j].role != 0
        ensures s.slots[i].key != s.slots[j].key
      {
        assert !Clash(s.slots[j], s.slots[i]);
      }
    }
  }

  // ---- The bytes of the record ----

  /** The encoded sector, byte by byte: magic "PBCS" backwards, schema 1, two zero bytes, the generation,
      five slots of a role and a key, three padding bytes, the checksum of all that, the commit word
      "CSMT" backwards, and erased bytes to the end. */
  lemma RecordBytes(s: Store)
    requires Shaped(s)
    ensures var im := Image(s); var g := s.generation;
            && |im| == 4096
            && im[0..8] == [0x53, 0x43, 0x42, 0x50, 1, 0, 0, 0]
            && im[8..12] == [g % 256, g / 256 % 256, g / 65536 % 256, g / 16777216 % 256]
            && (forall i: nat | i < 5 ::
                  im[12 + 33 * i] == s.slots[i].role && im[13 + 33 * i..45 + 33 * i] == s.slots[i].key)
            && im[177..180] == [255, 255, 255]
            && LeValue(im[180..184]) == Crc32(im[..180])
            && im[184..188] == [0x54, 0x4d, 0x53, 0x43]
            && forall i | 188 <= i < 4096 :: im[i] == 255
  {
    hide Image, Crc32, LeBytes, LeValue;
    ImageSealed(s);
    ImageParts(s);
    var im := Image(s);
    WordsRead(im);
    LeInverse(im[8..12]);
    LittleEndian(s.generation);
    PaddingBytes(s);
    SlotsInImage(s);
  }

  lemma SlotsInImage(s: Store)
    requires Shaped(s) && |Image(s)| == 4096 && SlotsAt(Image(s)) == s.slots
    ensures var im := Image(s);
            forall i: nat | i < 5 :: im[12 + 33 * i] == s.slots[i].role && im[13 + 33 * i..45 + 33 * i] == s.slots[i].key
  {
    forall i: nat | i < 5
      ensures Image(s)[12 + 33 * i] == s.slots[i].role && Image(s)[13 + 33 * i..45 + 33 * i] == s.slots[i].key
    {
      assert SlotsAt(Image(s))[i] == SlotAt(Image(s), i);
    }
  }

  lemma PaddingBytes(s: Store)
    requires Shaped(s) && |Image(s)| == 4096
    ensures Image(s)[177..180] == [255, 255, 255]
    ensures forall i | 188 <= i < 4096 :: Image(s)[i] == 255
  {
    BodyParts(s);
    SlotsBytesLength(s.slots);
    var front := Header(s.generation) + SlotsBytes(s.slots);
    assert |front| == 177 && Body(s) == front + [255, 255, 255];
    assert |Record(s)| == 188;
    assert Image(s)[..188] == Record(s);
    assert Image(s)[177..180] == Record(s)[177..180] == Body(s)[177..180];
  }

  /** What a sector must hold to be a record, and what it then says. */
  lemma RecordRead(data: seq<Byte>, s: Store)
    requires Shaped(s)
    ensures ReadRecord(data) == Some(s) <==>
              && |data| >= 188 && Good(s)
              && data[0..8] == [0x53, 0x43, 0x42, 0x50, 1, 0, 0, 0]
              && LeValue(data[8..12]) == s.generation
              && (forall i: nat | i < 5 ::
                    data[12 + 33 * i] == s.slots[i].role && data[13 + 33 * i..45 + 33 * i] == s.slots[i].key)
              && LeValue(data[180..184]) == Crc32(data[..180])
              && data[184..188] == [0x54, 0x4d, 0x53, 0x43]
  {
    hide Crc32;
    if |data| >= 188 {
      WordsRead(data);
      SlotsRead(data, s);
    }
  }

  lemma WordsRead(data: seq<Byte>)
    requires |data| >= 188
    ensures LeValue(data[0..4]) == MAGIC && LeValue(data[4..6]) == SCHEMA && LeValue(data[6..8]) == 0 <==>
              data[0..8] == [0x53, 0x43, 0x42, 0x50, 1, 0, 0, 0]
    ensures LeValue(data[184..188]) == COMMIT <==> data[184..188] == [0x54, 0x4d, 0x53, 0x43]
  {
    hide LeValue;
    var a := data[0..8];
    assert data[0..4] == a[0..4] && data[4..6] == a[4..6] && data[6..8] == a[6..8];
    Word(data[0..4], [0x53, 0x43, 0x42, 0x50]);
    Word(data[4..6], [1, 0]);
    Word(data[6..8], [0, 0]);
    Word(data[184..188], [0x54, 0x4d, 0x53, 0x43]);
    assert a == a[0..4] + a[4..6] + a[6..8];
  }

  /** A field has a value exactly when it holds that value's bytes. */
  lemma Word(s: seq<Byte>, t: seq<Byte>)
    requires |s| == |t| && |t| in {2, 4}
    ensures LeValue(s) == LeValue(t) <==> s == t
    ensures |t| == 2 ==> LeValue(t) == t[0] as int + 256 * t[1] as int
    ensures |t| == 4 ==> LeValue(t) == t[0] as int + 256 * t[1] as int + 65536 * t[2] as int + 16777216 * t[3] as int
  {
    LeInverse(s);
    LeInverse(t);
    LittleEndianValue(t);
  }

  lemma SlotsRead(data: seq<Byte>, s: Store)
    requires |data| >= 188 && Shaped(s)
    ensures SlotsAt(data) == s.slots <==>
              forall i: nat | i < 5 :: data[12 + 33 * i] == s.slots[i].role && data[13 + 33 * i..45 + 33 * i] == s.slots[i].key
  {
    if forall i: nat | i < 5 :: data[12 + 33 * i] == s.slots[i].role && data[13 + 33 * i..45 + 33 * i] == s.slots[i].key {
      forall i: nat | i < 5
        ensures SlotsAt(data)[i] == s.slots[i]
      {
      }
    } else {
      var i: nat :| i < 5 && !(data[12 + 33 * i] == s.slots[i].role && data[13 + 33 * i..45 + 33 * i] == s.slots[i].key);
      assert SlotsAt(data)[i] != s.slots[i];
    }
  }
}

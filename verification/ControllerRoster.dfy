/** The controller trust store as the firmware runs it: validation loops, and a roster that
    commands change in place. */
module ControllerRoster {
  import opened Bytes
  import opened Crc
  import opened Spec = ControllerStore

  /** `key_is_zero`. */
  method KeyIsZero(key: seq<Byte>) returns (zero: bool)
    requires |key| == KEY_LEN
    ensures zero == (key == ZERO_KEY)
  {
    zero := true;
    for i := 0 to KEY_LEN
      invariant zero == forall k | 0 <= k < i :: key[k] == 0
    {
      zero := zero && key[i] == 0;
    }
    assert zero ==> forall k | 0 <= k < KEY_LEN :: key[k] == ZERO_KEY[k];
  }

  /** `ct_equal`, which never leaves its loop early. */
  method KeysEqual(left: seq<Byte>, right: seq<Byte>) returns (equal: bool)
    requires |left| == |right|
    ensures equal == (left == right)
  {
    equal := true;
    for i := 0 to |left|
      invariant equal == (left[..i] == right[..i])
    {
      equal := equal && left[i] == right[i];
      assert left[..i + 1] == left[..i] + [left[i]] && right[..i + 1] == right[..i] + [right[i]];
    }
    assert left[..|left|] == left && right[..|left|] == right;
  }

  /** The slot loop of `record_valid`. */
  method SlotsValid(slots: seq<Slot>) returns (ok: bool)
    requires |slots| == SLOTS && forall i | 0 <= i < SLOTS :: |slots[i].key| == KEY_LEN
    ensures ok == WellFormed(slots)
  {
    var recoveries := 0;
    for i := 0 to SLOTS
      invariant forall k | 0 <= k < i :: SlotLegal(slots[k])
      invariant forall k, j | 0 <= j < k < i :: !Clash(slots[k], slots[j])
      invariant 0 <= recoveries <= i
      invariant i > 0 && slots[0].role == RECOVERY ==>
                  recoveries >= 1 && (recoveries == 1 <==> forall k | 1 <= k < i :: slots[k].role != RECOVERY)
    {
      if slots[i].role > RECOVERY {
        assert !SlotLegal(slots[i]);
        return false;
      }
      var zero := KeyIsZero(slots[i].key);
      if zero != (slots[i].role == NONE) {
        assert !SlotLegal(slots[i]);
        return false;
      }
      if slots[i].role == RECOVERY {
        recoveries := recoveries + 1;
      }
      for j := 0 to i
        invariant forall k | 0 <= k < j :: !Clash(slots[i], slots[k])
      {
        var same := KeysEqual(slots[i].key, slots[j].key);
        if slots[i].role != NONE && slots[j].role != NONE && same {
          assert Clash(slots[i], slots[j]);
          return false;
        }
      }
    }
    return slots[0].role == RECOVERY && recoveries == 1;
  }

  /** `record_valid`. */
  method RecordValid(data: seq<Byte>) returns (r: Option<Store>)
    ensures r == ReadRecord(data)
  {
    if |data| < 188 { return None; }
    var crc := Crc.Update(ALL_ONES, data[..180]);
    if LeValue(data[0..4]) != MAGIC || LeValue(data[4..6]) != SCHEMA || LeValue(data[6..8]) != 0 ||
       LeValue(data[184..188]) != COMMIT || LeValue(data[180..184]) != Xor(crc, ALL_ONES) {
      return None;
    }
    var slots := SlotsAt(data);
    var ok := SlotsValid(slots);
    if !ok { return None; }
    return Some(Store(LeValue(data[8..12]), slots));
  }

  /** A `controller_store_t` variable: the roster that commands change in place. */
  class Roster {
    var generation: nat
    var slots: seq<Slot>

    ghost function View(): Store
      reads this
    {
      Store(generation, slots)
    }

    /** Struct assignment. */
    constructor (from: Store)
      ensures View() == from
    {
      generation, slots := from.generation, from.slots;
    }

    method Initialise(recovery: seq<Byte>) returns (status: Status)
      requires |recovery| == KEY_LEN
      modifies this
      ensures match Spec.Initialise(recovery)
              case None => status == ErrArgument && View() == old(View())
              case Some(s) => status == Ok && View() == s
    {
      var zero := KeyIsZero(recovery);
      if zero { return ErrArgument; }
      generation := 1;
      slots := seq(SLOTS, i => EMPTY_SLOT);
      slots := slots[0 := Slot(RECOVERY, recovery)];
      return Ok;
    }

    method Encode(out: array<Byte>) returns (status: Status)
      requires Shaped(View())
      modifies out
      ensures status == if out.Length < 188 then ErrArgument else Ok
      ensures status == Ok ==> out[..] == Record(View()) + Erased(out.Length - 188)
      ensures status != Ok ==> out[..] == old(out[..])
    {
      if out.Length < 188 { return ErrArgument; }
      var body := Body(Store(generation, slots));
      var crc := Crc.Update(ALL_ONES, body);
      var record := body + LeBytes(Xor(crc, ALL_ONES), 4) + LeBytes(COMMIT, 4);
      BodyParts(View());
      for i := 0 to out.Length
        invariant forall k | 0 <= k < i :: out[k] == 255
      {
        out[i] := 255;
      }
      for i := 0 to 188
        invariant out[..i] == record[..i]
        invariant forall k | i <= k < out.Length :: out[k] == 255
      {
        out[i] := record[i];
      }
      return Ok;
    }

    method Find(key: seq<Byte>) returns (slot: Option<nat>)
      requires Shaped(View()) && |key| == KEY_LEN
      ensures slot == FindFrom(slots, key, 0)
    {
      for i := 0 to SLOTS
        invariant FindFrom(slots, key, 0) == FindFrom(slots, key, i)
      {
        var same := KeysEqual(slots[i].key, key);
        if slots[i].role != NONE && same { return Some(i); }
      }
      return None;
    }

    method Add(caller: nat, key: seq<Byte>, role: Byte) returns (status: Status)
      requires Shaped(View()) && |key| == KEY_LEN
      modifies this
      ensures (View(), status) == Spec.Add(old(View()), caller, key, role)
    {
      var zero := KeyIsZero(key);
      if zero || (role != OPERATOR && role != ADMIN) { return ErrArgument; }
      if !IsAdmin(Store(generation, slots), caller) { return ErrRole; }
      var found := Find(key);
      if found.Some? { return ErrDuplicate; }
      for i := 1 to SLOTS
        invariant View() == old(View())
        invariant FreeFrom(slots, 1) == FreeFrom(slots, i)
      {
        if slots[i].role == NONE {
          slots := slots[i := Slot(role, key)];
          generation := Bump(generation);
          return Ok;
        }
      }
      return ErrFull;
    }

    method Revoke(caller: nat, target: nat) returns (status: Status)
      requires Shaped(View())
      modifies this
      ensures (View(), status) == Spec.Revoke(old(View()), caller, target)
    {
      if caller >= SLOTS || target >= SLOTS { return ErrArgument; }
      if !IsAdmin(Store(generation, slots), caller) { return ErrRole; }
      if target == 0 { return ErrImmutable; }
      if slots[target].role == NONE { return ErrNotFound; }
      slots := slots[target := EMPTY_SLOT];
      generation := Bump(generation);
      return Ok;
    }
  }
}

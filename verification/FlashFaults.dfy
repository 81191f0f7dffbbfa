/** What power failure may do, spelled out: the fault model that the atomicity results quantify over
    leaves out no step and no bit. */
module FlashFaults {
  import opened Bytes
  import opened ControllerStore
  import opened FlashCommit
  import opened Enrolment
  import Crc

  /** Bit `k` of a number. */
  function Bit(a: nat, k: nat): (r: nat)
    ensures r < 2
  {
    if k == 0 then a % 2 else Bit(a / 2, k - 1)
  }

  lemma {:induction false} AndBits(a: nat, b: nat, k: nat)
    ensures Bit(And(a, b), k) == if Bit(a, k) == 1 && Bit(b, k) == 1 then 1 else 0
    decreases k
  {
    if a == 0 {
      ZeroBits(k);
    } else if k > 0 {
      AndBits(a / 2, b / 2, k - 1);
      assert And(a, b) / 2 == And(a / 2, b / 2);
    }
  }

  lemma {:induction false} ZeroBits(k: nat)
    ensures Bit(0, k) == 0
  {
    if k > 0 {
      ZeroBits(k - 1);
    }
  }

  lemma {:induction false} SameBits(a: nat, b: nat, n: nat)
    requires a < Crc.Pow2(n) && b < Crc.Pow2(n) && forall k | 0 <= k < n :: Bit(a, k) == Bit(b, k)
    ensures a == b
    decreases n
  {
    if n > 0 {
      forall k | 0 <= k < n - 1
        ensures Bit(a / 2, k) == Bit(b / 2, k)
      {
        assert Bit(a, k + 1) == Bit(b, k + 1);
      }
      SameBits(a / 2, b / 2, n - 1);
      assert Bit(a, 0) == a % 2 && Bit(b, 0) == b % 2;
    }
  }

  /** A bit that was clear stays clear; one that was set and is to stay set stays set; one that was to
      be cleared may be either. */
  predicate MayBe(was: nat, wanted: nat, is_: nat) {
    (was == 0 ==> is_ == 0) && (was == 1 && wanted == 1 ==> is_ == 1)
  }

  predicate AnySubset(was: Byte, wanted: Byte, is_: Byte) {
    forall k | 0 <= k < 8 :: MayBe(Bit(was, k), Bit(wanted, k), Bit(is_, k))
  }

  /** Programming leaves a bit set exactly where it was set and is to stay set; cut short, it may have
      cleared any subset of the bits it was to clear, and no other. */
  lemma TornBits(old_: Byte, data: Byte, r: Byte)
    ensures forall k | 0 <= k < 8 :: Bit(ProgramByte(old_, data), k) == if Bit(old_, k) == 1 && Bit(data, k) == 1 then 1 else 0
    ensures TornByte(old_, data, r) <==> AnySubset(old_, data, r)
  {
    hide And, Bit;
    Crc.Pow2Values();
    var both := And(old_, data);
    AndBound(r, old_);
    AndBound(old_, data);
    AndBound(both, r);
    forall k | 0 <= k < 8
      ensures Bit(ProgramByte(old_, data), k) == if Bit(old_, k) == 1 && Bit(data, k) == 1 then 1 else 0
    {
      AndBits(old_, data, k);
    }
    if TornByte(old_, data, r) {
      forall k | 0 <= k < 8
        ensures MayBe(Bit(old_, k), Bit(data, k), Bit(r, k))
      {
        ThreeBits(old_, data, r, k);
      }
    } else if AnySubset(old_, data, r) {
      forall k | 0 <= k < 8
        ensures Bit(And(r, old_), k) == Bit(r, k) && Bit(And(both, r), k) == Bit(both, k)
      {
        ThreeBits(old_, data, r, k);
      }
      SameBits(And(r, old_), r, 8);
      SameBits(And(both, r), both, 8);
    }
  }

  lemma ThreeBits(old_: Byte, data: Byte, r: Byte, k: nat)
    ensures var both := And(old_, data);
            && Bit(both, k) == (if Bit(old_, k) == 1 && Bit(data, k) == 1 then 1 else 0)
            && Bit(And(r, old_), k) == (if Bit(r, k) == 1 && Bit(old_, k) == 1 then 1 else 0)
            && Bit(And(both, r), k) == (if Bit(both, k) == 1 && Bit(r, k) == 1 then 1 else 0)
  {
    AndBits(old_, data, k);
    AndBits(r, old_, k);
    AndBits(And(old_, data), r, k);
  }

  /** The steps of a commit, in the order in which power may fail: the erase, the first page without its
      commit word, fifteen more pages, and the first page again. */
  lemma PlanSteps(image: seq<Byte>)
    requires |image| == 4096
    ensures var plan := Plan(image);
            && |plan| == 18 && plan[0] == Erase
            && plan[1] == Program(0, image[..184] + [255, 255, 255, 255] + image[188..256])
            && (forall k | 1 <= k < 16 :: plan[k + 1] == Program(256 * k, image[256 * k..256 * k + 256]))
            && plan[17] == Program(0, image[..256])
  {
    assert Erased(4) == [255, 255, 255, 255];
    PagesSteps(image, 16);
  }

  lemma {:induction false} PagesSteps(image: seq<Byte>, n: nat)
    requires |image| == SECTOR && 1 <= n <= 16
    ensures var steps := Pages(image, n);
            && steps[0] == Erase && steps[1] == Program(0, FirstPage(image))
            && forall k | 1 <= k < n :: steps[k + 1] == Program(PAGE * k, image[PAGE * k..PAGE * k + PAGE])
    decreases n
  {
    if n > 1 {
      PagesSteps(image, n - 1);
    }
  }

  /** No cut is left out: stopping inside any of the 18 steps, with any torn result of that step, and
      stopping after the last, are all flashes that a commit may leave; and any of them may be what a
      power loss leaves behind a command. */
  lemma CutAnywhere(f: Flash, s: Store, k: nat, r: seq<Byte>)
    requires Sized(f) && Shaped(s) && k <= 18 && |Image(s)| == 4096
    requires !(Boot(f).Some? && Boot(f).value.generation == s.generation)
    requires var before := DoAll(if Target(f) == SectorA then f.a else f.b, Plan(Image(s))[..k]);
             if k == 18 then r == before else Torn(before, Plan(Image(s))[k], r)
    ensures var left := if Target(f) == SectorA then Flash(r, f.b) else Flash(f.a, r);
            CommitMayLeave(f, s, left) && CanEnd(f, s, Outcome(left, Lost))
  {
    hide DoAll, Torn, Boot;
    assert CutAt(Get(f, Target(f)), Image(s), k, r);
  }

  /** A torn program step may leave any bytes that keep outside the range what was there and inside it
      are torn; a torn erase anything that is no record, or the record that was there. */
  lemma TornSteps(sector: seq<Byte>, step: Step, r: seq<Byte>)
    requires |sector| == 4096 && |r| == 4096 && Fits(step)
    ensures match step
            case Erase => Torn(sector, step, r) <==> ReadRecord(r) == None || ReadRecord(r) == ReadRecord(sector)
            case Program(offset, data) =>
              Torn(sector, step, r) <==>
                && (forall i | 0 <= i < |data| :: TornByte(sector[offset + i], data[i], r[offset + i]))
                && (forall i | 0 <= i < 4096 && !(offset <= i < offset + |data|) :: r[i] == sector[i])
  {
    hide TornByte, ReadRecord;
    match step
    case Erase =>
    case Program(offset, data) =>
      if Torn(sector, step, r) {
        forall i | 0 <= i < |data|
          ensures TornByte(sector[offset + i], data[i], r[offset + i])
        {
          var j := offset + i;
          assert data[j - offset] == data[i];
          assert TornByte(sector[j], data[j - offset], r[j]);
        }
      } else {
        var j :| 0 <= j < SECTOR &&
          !(if offset <= j < offset + |data| then TornByte(sector[j], data[j - offset], r[j]) else r[j] == sector[j]);
        if offset <= j < offset + |data| {
          var i := j - offset;
          assert !TornByte(sector[offset + i], data[i], r[offset + i]);
        }
      }
  }

  /** Boot takes the valid record with the larger generation, sector A's on a tie. */
  lemma BootRule(f: Flash)
    ensures var x, y := ReadRecord(f.a), ReadRecord(f.b);
            && (x.None? && y.None? ==> Boot(f) == None)
            && (x.Some? && y.None? ==> Boot(f) == x)
            && (x.None? && y.Some? ==> Boot(f) == y)
            && (x.Some? && y.Some? && x.value.generation >= y.value.generation ==> Boot(f) == x)
            && (x.Some? && y.Some? && x.value.generation < y.value.generation ==> Boot(f) == y)
  {
  }
}

/** The two-sector commit protocol of the trust store on NOR flash, where programming only clears
    bits and erasing sets them, and where power may fail inside any single operation. */
module FlashCommit {
  import opened Bytes
  import opened ControllerStore
  import Crc

  const SECTOR: nat := 4096
  const PAGE: nat := 256
  const MARK: nat := 184

  // ---- NOR cells ----

  /** Bitwise and: what programming `b` over `a` leaves in a cell. */
  function And(a: nat, b: nat): nat
    decreases a
  {
    if a == 0 then 0 else (if a % 2 == 1 && b % 2 == 1 then 1 else 0) + 2 * And(a / 2, b / 2)
  }

  function ProgramByte(old_: Byte, data: Byte): (r: Byte)
  {
    AndBound(old_, data);
    And(old_, data)
  }

  /** A cell whose programming was cut: some of the bits to be cleared may still be set. */
  ghost predicate TornByte(old_: Byte, data: Byte, r: Byte) {
    And(r, old_) == r && And(And(old_, data), r) == And(old_, data)
  }

  lemma {:induction false} AndBound(a: nat, b: nat)
    ensures And(a, b) <= a
    decreases a
  {
    if a > 0 {
      AndBound(a / 2, b / 2);
    }
  }

  lemma {:induction false} AndCommutes(a: nat, b: nat)
    ensures And(a, b) == And(b, a)
    decreases a
  {
    if a > 0 {
      AndCommutes(a / 2, b / 2);
    } else {
      AndZero(b);
    }
  }

  lemma {:induction false} AndZero(b: nat)
    ensures And(b, 0) == 0
    decreases b
  {
    if b > 0 {
      AndZero(b / 2);
    }
  }

  lemma {:induction false} AndSelf(a: nat)
    ensures And(a, a) == a
    decreases a
  {
    if a > 0 {
      AndSelf(a / 2);
    }
  }

  lemma {:induction false} AndOnes(n: nat, d: nat)
    requires d < Crc.Pow2(n)
    ensures And(Crc.Pow2(n) - 1, d) == d
    decreases n
  {
    if n > 0 {
      var half := Crc.Pow2(n - 1);
      AndOnes(n - 1, d / 2);
      assert (2 * half - 1) / 2 == half - 1 && (2 * half - 1) % 2 == 1;
    }
  }

  lemma ErasedCell(d: Byte)
    ensures And(255, d) == d
  {
    Crc.Pow2Values();
    AndOnes(8, d);
  }

  /** An erased cell takes any value; one already holding the data cannot be disturbed; one told
      to stay erased stays erased. */
  lemma TornCells(old_: Byte, d: Byte, r: Byte)
    requires TornByte(old_, d, r)
    ensures old_ == d ==> r == d
  {
    if old_ == d {
      AndSelf(d);
      AndCommutes(d, r);
    }
  }

  // ---- Operations on one sector ----

  datatype Step = Erase | Program(offset: nat, data: seq<Byte>)

  predicate Fits(step: Step) {
    step.Program? ==> step.offset + |step.data| <= SECTOR
  }

  function Do(sector: seq<Byte>, step: Step): (r: seq<Byte>)
    requires |sector| == SECTOR && Fits(step)
    ensures |r| == SECTOR
  {
    match step
    case Erase => Erased(SECTOR)
    case Program(offset, data) =>
      seq(SECTOR, i requires 0 <= i < SECTOR =>
        if offset <= i < offset + |data| then ProgramByte(sector[i], data[i - offset]) else sector[i])
  }

  function DoAll(sector: seq<Byte>, steps: seq<Step>): (r: seq<Byte>)
    requires |sector| == SECTOR && forall i | 0 <= i < |steps| :: Fits(steps[i])
    ensures |r| == SECTOR
  {
    if steps == [] then sector else Do(DoAll(sector, steps[..|steps| - 1]), steps[|steps| - 1])
  }

  /** A sector left behind by an operation that lost power. A torn program may have reached any
      subset of its bits. A torn erase may leave anything that is no record, or the record that
      was there. */
  ghost predicate Torn(sector: seq<Byte>, step: Step, r: seq<Byte>)
    requires |sector| == SECTOR && Fits(step)
  {
    && |r| == SECTOR
    && match step
       case Erase => ReadRecord(r) == None || ReadRecord(r) == ReadRecord(sector)
       case Program(offset, data) =>
         forall i | 0 <= i < SECTOR ::
           if offset <= i < offset + |data| then TornByte(sector[i], data[i - offset], r[i]) else r[i] == sector[i]
  }

  // ---- The plan of one commit ----

  /** The first page with the commit word left erased. */
  function FirstPage(image: seq<Byte>): (page: seq<Byte>)
    requires |image| == SECTOR
    ensures |page| == PAGE
  {
    image[..MARK] + Erased(4) + image[MARK + 4..PAGE]
  }

  /** `program_sector` up to and including page `n`: erase, the unmarked first page, the rest. */
  function Pages(image: seq<Byte>, n: nat): (steps: seq<Step>)
    requires |image| == SECTOR && 1 <= n <= 16
    ensures |steps| == n + 1 && forall i | 0 <= i < |steps| :: Fits(steps[i])
  {
    if n == 1 then [Erase, Program(0, FirstPage(image))]
    else Pages(image, n - 1) + [Program(PAGE * (n - 1), image[PAGE * (n - 1)..PAGE * n])]
  }

  /** The whole of `program_sector`: the commit word is programmed last. */
  function Plan(image: seq<Byte>): (steps: seq<Step>)
    requires |image| == SECTOR
    ensures |steps| == 18 && forall i | 0 <= i < |steps| :: Fits(steps[i])
  {
    Pages(image, 16) + [Program(0, image[..PAGE])]
  }

  /** The image with its commit word still erased. */
  function Unmarked(image: seq<Byte>): (r: seq<Byte>)
    requires |image| == SECTOR
    ensures |r| == SECTOR
  {
    image[..MARK] + Erased(4) + image[MARK + 4..]
  }

  /** After page `n` the first n pages hold the unmarked image and the rest is erased. */
  lemma {:induction false} PagesWritten(sector: seq<Byte>, image: seq<Byte>, n: nat)
    requires |sector| == SECTOR && |image| == SECTOR && 1 <= n <= 16
    ensures DoAll(sector, Pages(image, n)) == Unmarked(image)[..PAGE * n] + Erased(SECTOR - PAGE * n)
    decreases n
  {
    hide And, ProgramByte;
    var steps := Pages(image, n);
    assert steps[..|steps| - 1] == if n == 1 then [Erase] else Pages(image, n - 1);
    var before := DoAll(sector, steps[..|steps| - 1]);
    var after := DoAll(sector, steps);
    if n == 1 {
      assert [Erase][..0] == [];
      assert before == Erased(SECTOR);
    } else {
      PagesWritten(sector, image, n - 1);
    }
    PageProgrammed(before, image, n);
  }

  lemma PageProgrammed(before: seq<Byte>, image: seq<Byte>, n: nat)
    requires |image| == SECTOR && 1 <= n <= 16
    requires before == Unmarked(image)[..PAGE * (n - 1)] + Erased(SECTOR - PAGE * (n - 1))
    ensures var page := if n == 1 then FirstPage(image) else image[PAGE * (n - 1)..PAGE * n];
            Do(before, Program(PAGE * (n - 1), page)) == Unmarked(image)[..PAGE * n] + Erased(SECTOR - PAGE * n)
  {
    hide And;
    var page := if n == 1 then FirstPage(image) else image[PAGE * (n - 1)..PAGE * n];
    var after := Do(before, Program(PAGE * (n - 1), page));
    var want := Unmarked(image)[..PAGE * n] + Erased(SECTOR - PAGE * n);
    forall i | 0 <= i < SECTOR
      ensures after[i] == want[i]
    {
      if PAGE * (n - 1) <= i < PAGE * n {
        ErasedCell(page[i - PAGE * (n - 1)]);
      }
    }
  }

  lemma MarkProgrammed(image: seq<Byte>)
    requires |image| == SECTOR
    ensures Do(Unmarked(image), Program(0, image[..PAGE])) == image
  {
    hide And;
    var before := Unmarked(image);
    var after := Do(before, Program(0, image[..PAGE]));
    forall i | 0 <= i < SECTOR
      ensures after[i] == image[i]
    {
      if i < PAGE {
        assert before[i] == if MARK <= i < MARK + 4 then 255 else image[i];
        ErasedCell(image[i]);
        AndSelf(image[i]);
      }
    }
  }

  lemma PlanSplits(sector: seq<Byte>, image: seq<Byte>)
    requires |sector| == SECTOR && |image| == SECTOR
    ensures DoAll(sector, Pages(image, 16)) == Unmarked(image)
    ensures DoAll(sector, Plan(image)) == Do(Unmarked(image), Program(0, image[..PAGE]))
  {
    var steps := Plan(image);
    assert steps[..|steps| - 1] == Pages(image, 16);
    PagesWritten(sector, image, 16);
    assert Unmarked(image)[..SECTOR] + Erased(0) == Unmarked(image);
  }

  /** Run to its end, the plan leaves exactly the image, whatever the sector held. */
  lemma PlanWritesImage(sector: seq<Byte>, image: seq<Byte>)
    requires |sector| == SECTOR && |image| == SECTOR
    ensures DoAll(sector, Plan(image)) == image
  {
    PlanSplits(sector, image);
    MarkProgrammed(image);
  }

  // ---- Power failure inside a plan ----

  /** The commit word is still erased. */
  ghost predicate MarkErased(sector: seq<Byte>) {
    |sector| == SECTOR && forall i | MARK <= i < MARK + 4 :: sector[i] == 255
  }

  lemma MarkErasedIsNoRecord(sector: seq<Byte>)
    requires MarkErased(sector)
    ensures ReadRecord(sector) == None
  {
    var mark := sector[184..188];
    assert mark == [255, 255, 255, 255];
    assert LeValue(mark) != COMMIT by {
      assert LeValue(mark) % 256 == mark[0];
    }
  }

  predicate KeepsMark(step: Step) {
    step.Erase? || forall i | 0 <= i < |step.data| && MARK <= step.offset + i < MARK + 4 :: step.data[i] == 255
  }

  lemma StepKeepsMark(sector: seq<Byte>, step: Step)
    requires |sector| == SECTOR && Fits(step) && KeepsMark(step) && (step.Erase? || MarkErased(sector))
    ensures MarkErased(Do(sector, step))
  {
    ErasedCell(255);
  }

  lemma TornStepKeepsMark(sector: seq<Byte>, step: Step, r: seq<Byte>)
    requires MarkErased(sector) && Fits(step) && step.Program? && KeepsMark(step) && Torn(sector, step, r)
    ensures MarkErased(r)
  {
    forall i | MARK <= i < MARK + 4
      ensures r[i] == 255
    {
      if step.offset <= i < step.offset + |step.data| {
        TornCells(sector[i], step.data[i - step.offset], r[i]);
      }
    }
  }

  lemma {:induction false} PagesKeepMark(image: seq<Byte>, n: nat)
    requires |image| == SECTOR && 1 <= n <= 16
    ensures forall i | 0 <= i < |Pages(image, n)| :: KeepsMark(Pages(image, n)[i])
    ensures Pages(image, n)[0] == Erase && forall i | 1 <= i < |Pages(image, n)| :: Pages(image, n)[i].Program?
    decreases n
  {
    if n > 1 {
      PagesKeepMark(image, n - 1);
    }
  }

  /** From the erase on and until the last program, the commit word stays erased. */
  lemma {:induction false} PrefixKeepsMark(sector: seq<Byte>, image: seq<Byte>, k: nat)
    requires |sector| == SECTOR && |image| == SECTOR && 1 <= k <= 17
    ensures MarkErased(DoAll(sector, Plan(image)[..k]))
    decreases k
  {
    PagesKeepMark(image, 16);
    var steps := Plan(image)[..k];
    assert steps[..k - 1] == Plan(image)[..k - 1];
    assert steps[k - 1] == Pages(image, 16)[k - 1];
    if k > 1 {
      PrefixKeepsMark(sector, image, k - 1);
    }
    StepKeepsMark(DoAll(sector, steps[..k - 1]), steps[k - 1]);
  }

  /** Cutting the last program: either the word is complete and the sector is the image, or the
      sector holds no record. */
  lemma TornMark(image: seq<Byte>, r: seq<Byte>)
    requires |image| == SECTOR && image[184..188] == LeBytes(COMMIT, 4)
    requires Torn(Unmarked(image), Program(0, image[..PAGE]), r)
    ensures r == image || ReadRecord(r) == None
  {
    hide And;
    var before := Unmarked(image);
    forall i | 0 <= i < SECTOR && !(MARK <= i < MARK + 4)
      ensures r[i] == image[i]
    {
      assert before[i] == image[i];
      if i < PAGE {
        TornCells(before[i], image[..PAGE][i], r[i]);
      }
    }
    if LeValue(r[184..188]) == COMMIT {
      LeInverse(r[184..188]);
      assert forall i | 184 <= i < 188 :: r[i] == r[184..188][i - 184] == image[184..188][i - 184] == image[i];
    }
  }

  /** The sector left when a plan stops inside step `k`, or after its last step. */
  ghost predicate CutAt(sector: seq<Byte>, image: seq<Byte>, k: nat, r: seq<Byte>)
    requires |sector| == SECTOR && |image| == SECTOR && k <= 18
  {
    var before := DoAll(sector, Plan(image)[..k]);
    if k == 18 then r == before else Torn(before, Plan(image)[k], r)
  }

  /** Wherever a commit stops, its target sector holds what it held, nothing, or the new image. */
  lemma CutSector(sector: seq<Byte>, image: seq<Byte>, k: nat, r: seq<Byte>)
    requires |sector| == SECTOR && |image| == SECTOR && k <= 18
    requires image[184..188] == LeBytes(COMMIT, 4)
    requires CutAt(sector, image, k, r)
    ensures |r| == SECTOR
    ensures ReadRecord(r) == None || ReadRecord(r) == ReadRecord(image) || (k == 0 && ReadRecord(r) == ReadRecord(sector))
  {
    var plan := Plan(image);
    PagesKeepMark(image, 16);
    if k == 0 {
      assert plan[..0] == [];
      assert plan[0] == Erase;
    } else if k < 17 {
      PrefixKeepsMark(sector, image, k);
      assert plan[k] == Pages(image, 16)[k];
      TornStepKeepsMark(DoAll(sector, plan[..k]), plan[k], r);
      MarkErasedIsNoRecord(r);
    } else if k == 17 {
      assert plan[..17] == Pages(image, 16);
      PlanSplits(sector, image);
      TornMark(image, r);
    } else {
      assert plan[..18] == plan;
      PlanWritesImage(sector, image);
    }
  }

  // ---- Two sectors ----

  datatype Flash = Flash(a: seq<Byte>, b: seq<Byte>)

  predicate Sized(f: Flash) {
    |f.a| == SECTOR && |f.b| == SECTOR
  }

  function Newer(a: Option<Store>, b: Option<Store>): Option<Store> {
    if b.None? || (a.Some? && a.value.generation >= b.value.generation) then a else b
  }

  /** `controller_store_boot` over both sectors. */
  function Boot(f: Flash): (r: Option<Store>)
    ensures r.Some? ==> Good(r.value)
  {
    Newer(ReadRecord(f.a), ReadRecord(f.b))
  }

  datatype Sector = SectorA | SectorB

  function Get(f: Flash, s: Sector): seq<Byte> {
    if s == SectorA then f.a else f.b
  }

  function Put(f: Flash, s: Sector, data: seq<Byte>): Flash {
    if s == SectorA then f.(a := data) else f.(b := data)
  }

  /** The sector a commit overwrites: A, unless A is the one boot selects. */
  function Target(f: Flash): Sector {
    if Boot(f).Some? && ReadRecord(f.a).Some? && ReadRecord(f.a).value.generation == Boot(f).value.generation
    then SectorB else SectorA
  }

  /** What the commit answers when nothing is cut; `executed` is whether the flash driver ran. */
  function Commit(f: Flash, s: Store, executed: bool): (Flash, Status)
    requires Sized(f) && Shaped(s)
  {
    if Boot(f).Some? && Boot(f).value.generation == s.generation then (f, ErrArgument)
    else if !executed then (f, ErrFormat)
    else
      var f' := Put(f, Target(f), Image(s));
      (f', if Boot(f').Some? && Boot(f').value.generation == s.generation then Ok else ErrFormat)
  }

  /** Every flash a commit can leave behind: refused, not run, cut at any step, or complete. */
  ghost predicate CommitMayLeave(f: Flash, s: Store, f': Flash)
    requires Sized(f) && Shaped(s)
  {
    || f' == f
    || (!(Boot(f).Some? && Boot(f).value.generation == s.generation) && CutCommit(f, s, f'))
  }

  ghost predicate CutCommit(f: Flash, s: Store, f': Flash)
    requires Sized(f) && Shaped(s)
  {
    ImageParts(s);
    exists k: nat, r | k <= 18 && CutAt(Get(f, Target(f)), Image(s), k, r) :: f' == Put(f, Target(f), r)
  }

  /** The target is never the sector boot selects, so boot still finds the old store there. */
  lemma TargetIsNotSelected(f: Flash)
    requires Boot(f).Some?
    ensures Boot(f) == ReadRecord(Get(f, if Target(f) == SectorA then SectorB else SectorA))
  {
  }

  /** Power-loss atomicity: from any flash that boots, a commit that is refused, fails, is cut at
      any step or at any subset of the bits of a program step, or completes, leaves a flash that
      boots to exactly the old store or exactly the new one. */
  lemma OldOrNew(f: Flash, s: Store, f': Flash)
    requires Sized(f) && Shaped(s) && Boot(f).Some? && CommitMayLeave(f, s, f')
    ensures Sized(f')
    ensures Boot(f') == Boot(f) ||
            (Boot(f') == Some(s) && WellFormed(s.slots) && s.generation > Boot(f).value.generation)
  {
    if f' != f {
      ImageParts(s);
      var k: nat, r :| k <= 18 && CutAt(Get(f, Target(f)), Image(s), k, r) && f' == Put(f, Target(f), r);
      TargetIsNotSelected(f);
      CutSector(Get(f, Target(f)), Image(s), k, r);
      EncodeThenRead(s);
    }
  }

  /** A commit that runs to the end changes what boot yields exactly when the new store obeys the
      rules and its generation is larger; only then does it report success. */
  lemma CommitOutcome(f: Flash, s: Store, executed: bool)
    requires Sized(f) && Shaped(s) && Boot(f).Some?
    ensures var (f', status) := Commit(f, s, executed);
            && Sized(f')
            && (status == Ok <==> executed && WellFormed(s.slots) && s.generation > Boot(f).value.generation)
            && Boot(f') == if status == Ok then Some(s) else Boot(f)
  {
    hide ReadRecord, Image;
    ImageParts(s);
    EncodeThenRead(s);
    TargetIsNotSelected(f);
  }

  /** Running to the end is one of the ways a commit can stop. */
  lemma CompleteIsPossible(f: Flash, s: Store, executed: bool)
    requires Sized(f) && Shaped(s)
    ensures CommitMayLeave(f, s, Commit(f, s, executed).0)
  {
    ImageParts(s);
    if Commit(f, s, executed).0 != f {
      var plan := Plan(Image(s));
      assert plan[..18] == plan;
      PlanWritesImage(Get(f, Target(f)), Image(s));
      assert CutAt(Get(f, Target(f)), Image(s), 18, Image(s));
    }
  }

  /** The first seed, written over two blank sectors, is all or nothing. */
  lemma SeedAllOrNothing(f: Flash, s: Store, f': Flash)
    requires Sized(f) && Shaped(s) && Boot(f).None? && CommitMayLeave(f, s, f')
    ensures Sized(f')
    ensures Boot(f').None? || (Boot(f') == Some(s) && WellFormed(s.slots))
  {
    if f' != f {
      ImageParts(s);
      var k: nat, r :| k <= 18 && CutAt(Get(f, Target(f)), Image(s), k, r) && f' == Put(f, Target(f), r);
      CutSector(Get(f, Target(f)), Image(s), k, r);
      EncodeThenRead(s);
    }
  }

  lemma SeedOutcome(f: Flash, s: Store, executed: bool)
    requires Sized(f) && Shaped(s) && Boot(f).None?
    ensures var (f', status) := Commit(f, s, executed);
            && Sized(f')
            && (status == Ok <==> executed && WellFormed(s.slots))
            && Boot(f') == if status == Ok then Some(s) else None
  {
    ImageParts(s);
    EncodeThenRead(s);
  }
}

/** The trust store's flash driver as the firmware runs it: erase and program calls on two
    sectors, in the order the power-failure analysis assumes. */
module NorFlash {
  import opened Bytes
  import opened Spec = ControllerStore
  import opened ControllerRoster
  import opened FlashCommit

  class Chip {
    const a: array<Byte>
    const b: array<Byte>
    /** Every erase and program issued so far, oldest first. */
    ghost var log: seq<Step>

    ghost predicate Valid() {
      a.Length == SECTOR && b.Length == SECTOR && a != b
    }

    ghost function View(): Flash
      reads a, b
    {
      Flash(a[..], b[..])
    }

    function Of(s: Sector): array<Byte> {
      if s == SectorA then a else b
    }

    /** A blank device. */
    constructor ()
      ensures Valid() && fresh(a) && fresh(b) && log == []
      ensures View() == Flash(Erased(SECTOR), Erased(SECTOR))
    {
      a := new Byte[4096](i => 255);
      b := new Byte[4096](i => 255);
      log := [];
      new;
      assert a[..] == Erased(SECTOR) && b[..] == Erased(SECTOR);
    }

    /** `flash_range_erase` of one sector. */
    method EraseSector(s: Sector)
      requires Valid()
      modifies this`log, Of(s)
      ensures Of(s)[..] == Do(old(Of(s)[..]), Erase)
      ensures log == old(log) + [Erase]
    {
      var cells := Of(s);
      for i := 0 to cells.Length
        invariant forall k | 0 <= k < i :: cells[k] == 255
        invariant log == old(log)
      {
        cells[i] := 255;
      }
      log := log + [Erase];
    }

    /** `flash_range_program`: clears bits only. */
    method ProgramRange(s: Sector, offset: nat, data: seq<Byte>)
      requires Valid() && offset + |data| <= SECTOR
      modifies this`log, Of(s)
      ensures Of(s)[..] == Do(old(Of(s)[..]), Program(offset, data))
      ensures log == old(log) + [Program(offset, data)]
    {
      var cells := Of(s);
      ghost var was := cells[..];
      for i := 0 to |data|
        invariant forall k | 0 <= k < SECTOR ::
                    cells[k] == if offset <= k < offset + i then ProgramByte(was[k], data[k - offset]) else was[k]
        invariant log == old(log)
      {
        cells[offset + i] := ProgramByte(cells[offset + i], data[i]);
      }
      log := log + [Program(offset, data)];
    }

    /** `program_sector`. */
    method ProgramSector(s: Sector, image: seq<Byte>)
      requires Valid() && |image| == SECTOR
      modifies this`log, Of(s)
      ensures log == old(log) + Plan(image)
      ensures Of(s)[..] == image
    {
      hide ProgramByte, Do;
      var cells := Of(s);
      ghost var was, before := cells[..], log;
      EraseSector(s);
      assert [Erase][..0] == [];
      assert cells[..] == DoAll(was, [Erase]);
      ProgramRange(s, 0, FirstPage(image));
      assert Pages(image, 1)[..1] == [Erase];
      assert cells[..] == DoAll(was, Pages(image, 1));
      assert log == before + Pages(image, 1);
      var page := 1;
      while page < 16
        invariant 1 <= page <= 16
        invariant log == before + Pages(image, page)
        invariant cells[..] == DoAll(was, Pages(image, page))
      {
        ProgramRange(s, PAGE * page, image[PAGE * page..PAGE * (page + 1)]);
        assert Pages(image, page + 1)[..page + 1] == Pages(image, page);
        page := page + 1;
      }
      ProgramRange(s, 0, image[..PAGE]);
      assert Plan(image)[..17] == Pages(image, 16);
      PlanWritesImage(was, image);
    }

    /** `boot_existing`, through `controller_store_boot`. */
    method BootExisting() returns (r: Option<Store>)
      requires Valid()
      ensures r == Boot(View())
    {
      var x := RecordValid(a[..]);
      var y := RecordValid(b[..]);
      if x.None? && y.None? { return None; }
      return if y.None? || (x.Some? && x.value.generation >= y.value.generation) then x else y;
    }

    /** The sector that `controller_store_flash_commit` picks. */
    method ChooseTarget(current: Option<Store>) returns (target: Sector)
      requires Valid() && current == Boot(View())
      ensures target == Target(View())
    {
      target := SectorA;
      if current.Some? {
        var first := RecordValid(a[..]);
        if first.Some? && first.value.generation == current.value.generation {
          target := SectorB;
        }
      }
    }

    /** Encodes the store into the page buffer and programs it. */
    method Write(store: Roster, target: Sector)
      requires Valid() && Shaped(store.View())
      modifies this`log, a, b
      ensures View() == Put(old(View()), target, Image(store.View()))
      ensures |Image(store.View())| == SECTOR && log == old(log) + Plan(Image(store.View()))
    {
      ImageParts(store.View());
      var buffer := new Byte[4096](i => 255);
      var status := store.Encode(buffer);
      assert buffer[..] == Image(store.View());
      ProgramSector(target, buffer[..]);
    }

    /** `controller_store_flash_commit`; `executed` is the flash driver's verdict. */
    method Commit(store: Roster, executed: bool) returns (status: Status)
      requires Valid() && Shaped(store.View())
      modifies this`log, a, b
      ensures (View(), status) == FlashCommit.Commit(old(View()), old(store.View()), executed)
      ensures log == old(log) || (|Image(store.View())| == SECTOR && log == old(log) + Plan(Image(store.View())))
    {
      var current := BootExisting();
      if current.Some? && current.value.generation == store.generation { return ErrArgument; }
      var target := ChooseTarget(current);
      if !executed { return ErrFormat; }
      Write(store, target);
      var verified := BootExisting();
      return if verified.Some? && verified.value.generation == store.generation then Ok else ErrFormat;
    }

    /** `sectors_are_erased`. */
    method SectorsErased() returns (erased: bool)
      requires Valid()
      ensures erased == (View() == Flash(Erased(SECTOR), Erased(SECTOR)))
    {
      erased := true;
      for i := 0 to SECTOR
        invariant erased == forall k | 0 <= k < i :: a[k] == 255 && b[k] == 255
      {
        erased := erased && a[i] == 255 && b[i] == 255;
      }
      if erased {
        assert a[..] == Erased(SECTOR) && b[..] == Erased(SECTOR);
      } else {
        ghost var k :| 0 <= k < SECTOR && !(a[k] == 255 && b[k] == 255);
        assert a[..][k] != 255 || b[..][k] != 255;
      }
    }
  }
}

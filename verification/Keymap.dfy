/** Characters to key strokes (the firmware's US and DE maps) and key strokes to characters
    (what a target machine configured for that layout reads). */
module Keymap {
  import opened Bytes

  /** `bridge_stroke_t`: a HID modifier byte and a HID usage. */
  datatype Stroke = Stroke(modifier: Byte, usage: Byte)

  const NO_STROKE := Stroke(0, 0)
  const SHIFT: Byte := 0x02
  const ALTGR: Byte := 0x40
  const ENTER := Stroke(0, 0x28)
  const TAB := Stroke(0, 0x2b)
  const SPACE := Stroke(0, 44)

  const US_PLAIN: seq<char> := "`1234567890-=[]\\;',./"
  const US_SHIFTED: seq<char> := "~!@#$%^&*()_+{}|:\"<>?"
  const US_USAGES: seq<Byte> :=
    [53, 30, 31, 32, 33, 34, 35, 36, 37, 38, 39, 45, 46, 47, 48, 49, 51, 52, 54, 55, 56]

  const DE_SYMBOLS: seq<char> := "!\"#$%&'()*+,-./:;<=>?@[\\]^_`{|}~"
  const DE_KEYS: seq<Stroke> :=
    [ Stroke(2, 30), Stroke(2, 31), Stroke(0, 50), Stroke(2, 33), Stroke(2, 34), Stroke(2, 35),
      Stroke(2, 50), Stroke(2, 37), Stroke(2, 38), Stroke(2, 48), Stroke(0, 48), Stroke(0, 54),
      Stroke(0, 56), Stroke(0, 55), Stroke(2, 36), Stroke(2, 55), Stroke(2, 54), Stroke(0, 100),
      Stroke(2, 39), Stroke(2, 100), Stroke(2, 45), Stroke(64, 20), Stroke(64, 37), Stroke(64, 45),
      Stroke(64, 38), Stroke(0, 53), Stroke(2, 56), Stroke(2, 46), Stroke(64, 36), Stroke(64, 100),
      Stroke(64, 39), Stroke(64, 48) ]

  const DE_EXTRA: seq<(nat, Stroke)> :=
    [ (0xe4, Stroke(0, 52)), (0xf6, Stroke(0, 51)), (0xfc, Stroke(0, 47)),
      (0xc4, Stroke(2, 52)), (0xd6, Stroke(2, 51)), (0xdc, Stroke(2, 47)),
      (0xdf, Stroke(0, 45)), (0x20ac, Stroke(64, 8)), (0xb4, Stroke(0, 46)) ]

  const LAYOUT_US: nat := 1
  const LAYOUT_DE: nat := 2

  // ---- The firmware's side: which key for a character ----

  /** The table position `map_ascii` stops at, searching from position `i`. */
  function UsSlot(cp: nat, i: nat): (slot: Option<nat>)
    requires i <= 21
    ensures slot.Some? ==> slot.value < 21 && (US_PLAIN[slot.value] as nat == cp || US_SHIFTED[slot.value] as nat == cp)
    ensures slot.None? ==> forall k | i <= k < 21 :: US_PLAIN[k] as nat != cp && US_SHIFTED[k] as nat != cp
    decreases 21 - i
  {
    if i == 21 then None
    else if US_PLAIN[i] as nat == cp || US_SHIFTED[i] as nat == cp then Some(i)
    else UsSlot(cp, i + 1)
  }

  function UsStroke(cp: nat): Option<Stroke> {
    if 97 <= cp <= 122 then Some(Stroke(0, cp - 97 + 4))
    else if 65 <= cp <= 90 then Some(Stroke(SHIFT, cp - 65 + 4))
    else if cp == 32 then Some(SPACE)
    else
      match UsSlot(cp, 0)
      case Some(i) => Some(Stroke(if US_SHIFTED[i] as nat == cp then SHIFT else 0, US_USAGES[i]))
      case None => None
  }

  /** `map_ascii`. */
  method MapAscii(cp: nat) returns (ok: bool, stroke: Stroke)
    ensures ok == UsStroke(cp).Some?
    ensures ok ==> UsStroke(cp) == Some(stroke)
  {
    stroke := NO_STROKE;
    if 97 <= cp <= 122 {
      return true, stroke.(usage := cp - 97 + 4);
    }
    if 65 <= cp <= 90 {
      return true, Stroke(SHIFT, cp - 65 + 4);
    }
    if cp == 32 {
      return true, stroke.(usage := 44);
    }
    for i := 0 to 21
      invariant UsSlot(cp, 0) == UsSlot(cp, i)
    {
      if cp == US_PLAIN[i] as nat || cp == US_SHIFTED[i] as nat {
        return true, Stroke(if cp == US_SHIFTED[i] as nat then SHIFT else 0, US_USAGES[i]);
      }
    }
    return false, stroke;
  }

  /** The symbol position `map_de` stops at, searching from position `i`. */
  function DeSymbol(cp: nat, i: nat): (slot: Option<nat>)
    requires i <= 32
    ensures slot.Some? ==> slot.value < 32 && DE_SYMBOLS[slot.value] as nat == cp
    ensures slot.None? ==> forall k | i <= k < 32 :: DE_SYMBOLS[k] as nat != cp
    decreases 32 - i
  {
    if i == 32 then None
    else if DE_SYMBOLS[i] as nat == cp then Some(i)
    else DeSymbol(cp, i + 1)
  }

  function DeExtra(cp: nat, i: nat): (slot: Option<nat>)
    requires i <= 9
    ensures slot.Some? ==> slot.value < 9 && DE_EXTRA[slot.value].0 == cp
    ensures slot.None? ==> forall k | i <= k < 9 :: DE_EXTRA[k].0 != cp
    decreases 9 - i
  {
    if i == 9 then None
    else if DE_EXTRA[i].0 == cp then Some(i)
    else DeExtra(cp, i + 1)
  }

  function SwapYZ(cp: nat): nat {
    if cp == 121 then 122 else if cp == 89 then 90 else if cp == 122 then 121 else if cp == 90 then 89 else cp
  }

  function DeStroke(cp: nat): Option<Stroke> {
    match DeSymbol(cp, 0)
    case Some(i) => Some(DE_KEYS[i])
    case None =>
      match DeExtra(cp, 0)
      case Some(i) => Some(DE_EXTRA[i].1)
      case None => UsStroke(SwapYZ(cp))
  }

  /** `map_de`. */
  method MapDe(cp: nat) returns (ok: bool, stroke: Stroke)
    ensures ok == DeStroke(cp).Some?
    ensures ok ==> DeStroke(cp) == Some(stroke)
  {
    for i := 0 to 32
      invariant DeSymbol(cp, 0) == DeSymbol(cp, i)
    {
      if cp == DE_SYMBOLS[i] as nat {
        return true, DE_KEYS[i];
      }
    }
    for i := 0 to 9
      invariant DeExtra(cp, 0) == DeExtra(cp, i)
    {
      if cp == DE_EXTRA[i].0 {
        return true, DE_EXTRA[i].1;
      }
    }
    var swapped := cp;
    if cp == 121 {
      swapped := 122;
    } else if cp == 89 {
      swapped := 90;
    } else if cp == 122 {
      swapped := 121;
    } else if cp == 90 {
      swapped := 89;
    }
    ok, stroke := MapAscii(swapped);
  }

  // ---- The target's side: what a key types ----

  /** A key types a character, arms a dead accent, or types nothing. */
  datatype Key = Types(cp: nat) | Dead(cp: nat) | Nothing

  /** Reads the character at a position of a printed key row. */
  function Row(row: seq<char>, at: int): Key {
    if 0 <= at < |row| then Types(row[at] as nat) else Nothing
  }

  const US_DIGITS: seq<char> := "1234567890"
  const US_DIGITS_SHIFTED: seq<char> := "!@#$%^&*()"
  /** A machine set to the US layout. */
  function UsKey(s: Stroke): Key {
    if s == ENTER then Types(10)
    else if s == TAB then Types(9)
    else if s == SPACE then Types(32)
    else if s.modifier != 0 && s.modifier != SHIFT then Nothing
    else
      var shift := s.modifier == SHIFT;
      if 4 <= s.usage <= 29 then Types(s.usage - 4 + (if shift then 65 else 97))
      else if 30 <= s.usage <= 39 then Row(if shift then US_DIGITS_SHIFTED else US_DIGITS, s.usage - 30)
      else if s.usage == 45 then Types(if shift then 95 else 45)
      else if s.usage == 46 then Types(if shift then 43 else 61)
      else if s.usage == 47 then Types(if shift then 123 else 91)
      else if s.usage == 48 then Types(if shift then 125 else 93)
      else if s.usage == 49 then Types(if shift then 124 else 92)
      else if s.usage == 51 then Types(if shift then 58 else 59)
      else if s.usage == 52 then Types(if shift then 34 else 39)
      else if s.usage == 53 then Types(if shift then 126 else 96)
      else if s.usage == 54 then Types(if shift then 60 else 44)
      else if s.usage == 55 then Types(if shift then 62 else 46)
      else if s.usage == 56 then Types(if shift then 63 else 47)
      else Nothing
  }

  /** The unshifted, shifted and AltGr legends of the German keys that are not letters or digits,
      accents marked as dead. */
  function DePlain(usage: Byte): Key {
    if usage == 45 then Types(0xdf)
    else if usage == 46 then Dead(0xb4)
    else if usage == 47 then Types(0xfc)
    else if usage == 48 then Types(43)
    else if usage == 50 then Types(35)
    else if usage == 51 then Types(0xf6)
    else if usage == 52 then Types(0xe4)
    else if usage == 53 then Dead(94)
    else if usage == 54 then Types(44)
    else if usage == 55 then Types(46)
    else if usage == 56 then Types(45)
    else if usage == 100 then Types(60)
    else Nothing
  }

  function DeShifted(usage: Byte): Key {
    if usage == 30 then Types(33)
    else if usage == 31 then Types(34)
    else if usage == 32 then Types(0xa7)
    else if usage == 33 then Types(36)
    else if usage == 34 then Types(37)
    else if usage == 35 then Types(38)
    else if usage == 36 then Types(47)
    else if usage == 37 then Types(40)
    else if usage == 38 then Types(41)
    else if usage == 39 then Types(61)
    else if usage == 45 then Types(63)
    else if usage == 46 then Dead(96)
    else if usage == 47 then Types(0xdc)
    else if usage == 48 then Types(42)
    else if usage == 50 then Types(39)
    else if usage == 51 then Types(0xd6)
    else if usage == 52 then Types(0xc4)
    else if usage == 53 then Types(0xb0)
    else if usage == 54 then Types(59)
    else if usage == 55 then Types(58)
    else if usage == 56 then Types(95)
    else if usage == 100 then Types(62)
    else Nothing
  }

  function DeAltGr(usage: Byte): Key {
    if usage == 8 then Types(0x20ac)
    else if usage == 20 then Types(64)
    else if usage == 36 then Types(123)
    else if usage == 37 then Types(91)
    else if usage == 38 then Types(93)
    else if usage == 39 then Types(125)
    else if usage == 45 then Types(92)
    else if usage == 48 then Dead(126)
    else if usage == 100 then Types(124)
    else Nothing
  }

  /** A machine set to the German layout: Y and Z trade places, four accents are dead keys. */
  function DeKey(s: Stroke): Key {
    if s == ENTER then Types(10)
    else if s == TAB then Types(9)
    else if s == SPACE then Types(32)
    else if s.modifier == ALTGR then DeAltGr(s.usage)
    else if s.modifier != 0 && s.modifier != SHIFT then Nothing
    else
      var shift := s.modifier == SHIFT;
      if s.usage == 28 then Types(if shift then 90 else 122)
      else if s.usage == 29 then Types(if shift then 89 else 121)
      else if 4 <= s.usage <= 27 then Types(s.usage - 4 + (if shift then 65 else 97))
      else if shift then DeShifted(s.usage)
      else if 30 <= s.usage <= 39 then Row(US_DIGITS, s.usage - 30)
      else DePlain(s.usage)
  }

  // ---- Agreement of the two sides ----

  predicate Printable(cp: nat) {
    32 <= cp <= 126
  }

  predicate DeAccent(cp: nat) {
    cp == 94 || cp == 96 || cp == 126 || cp == 0xb4
  }

  predicate DeCharacter(cp: nat) {
    Printable(cp) || cp in {0xe4, 0xf6, 0xfc, 0xc4, 0xd6, 0xdc, 0xdf, 0x20ac, 0xb4}
  }

  lemma UsPlainRow(i: nat)
    requires i < 21
    ensures UsKey(Stroke(0, US_USAGES[i])) == Types(US_PLAIN[i] as nat)
    ensures Printable(US_PLAIN[i] as nat)
  {
  }

  lemma UsShiftedRow(i: nat)
    requires i < 21
    ensures UsKey(Stroke(SHIFT, US_USAGES[i])) == Types(US_SHIFTED[i] as nat)
    ensures Printable(US_SHIFTED[i] as nat)
  {
  }

  /** The printable ASCII symbols, in code order, are the 32 entries of the German table. */
  function SymbolPosition(cp: nat): nat
    requires 33 <= cp <= 47 || 58 <= cp <= 64 || 91 <= cp <= 96 || 123 <= cp <= 126
  {
    if cp <= 47 then cp - 33 else if cp <= 64 then cp - 58 + 15 else if cp <= 96 then cp - 91 + 22 else cp - 123 + 28
  }

  lemma SymbolAt(cp: nat)
    requires 33 <= cp <= 47 || 58 <= cp <= 64 || 91 <= cp <= 96 || 123 <= cp <= 126
    ensures DE_SYMBOLS[SymbolPosition(cp)] as nat == cp
  {
  }

  /** Where the US table lists the k-th ASCII symbol. */
  const US_WHERE: seq<nat> :=
    [1, 17, 3, 4, 5, 7, 17, 9, 10, 8, 12, 18, 11, 19, 20, 16, 16, 18, 12, 19, 20, 2, 13, 15, 14, 6, 11, 0, 13, 15, 14, 0]

  ghost predicate UsLists(k: nat)
    requires k < 32
  {
    US_WHERE[k] < 21 && (DE_SYMBOLS[k] == US_PLAIN[US_WHERE[k]] || DE_SYMBOLS[k] == US_SHIFTED[US_WHERE[k]])
  }

  lemma UsListsSymbol0(k: nat)
    requires 0 <= k < 8
    ensures UsLists(k)
  {
  }

  lemma UsListsSymbol1(k: nat)
    requires 8 <= k < 16
    ensures UsLists(k)
  {
  }

  lemma UsListsSymbol2(k: nat)
    requires 16 <= k < 24
    ensures UsLists(k)
  {
  }

  lemma UsListsSymbol3(k: nat)
    requires 24 <= k < 32
    ensures UsLists(k)
  {
  }

  lemma UsListsSymbol(k: nat)
    requires k < 32
    ensures UsLists(k)
  {
    if k < 8 {
      UsListsSymbol0(k);
    } else if k < 16 {
      UsListsSymbol1(k);
    } else if k < 24 {
      UsListsSymbol2(k);
    } else {
      UsListsSymbol3(k);
    }
  }

  lemma UsListsDigit(cp: nat)
    requires 48 <= cp <= 57
    ensures exists i | 0 <= i < 21 :: US_PLAIN[i] as nat == cp
  {
    var i := if cp == 48 then 10 else cp - 48;
    assert US_PLAIN[i] as nat == cp;
  }

  /** The US map is defined on exactly the printable ASCII characters, and the key it picks
      types that character. */
  lemma UsFaithful(cp: nat)
    ensures UsStroke(cp).Some? <==> Printable(cp)
    ensures Printable(cp) ==> UsKey(UsStroke(cp).value) == Types(cp)
  {
    if !(97 <= cp <= 122) && !(65 <= cp <= 90) && cp != 32 {
      match UsSlot(cp, 0)
      case Some(i) =>
        UsPlainRow(i);
        UsShiftedRow(i);
      case None =>
        if 48 <= cp <= 57 {
          UsListsDigit(cp);
        } else if Printable(cp) {
          SymbolAt(cp);
          UsListsSymbol(SymbolPosition(cp));
        }
    }
  }

  ghost predicate DeRow(i: nat)
    requires i < 32
  {
    var cp := DE_SYMBOLS[i] as nat;
    DeKey(DE_KEYS[i]) == (if DeAccent(cp) then Dead(cp) else Types(cp)) && Printable(cp)
  }

  lemma DeSymbolRow0(i: nat)
    requires 0 <= i < 8
    ensures DeRow(i)
  {
  }

  lemma DeSymbolRow1(i: nat)
    requires 8 <= i < 16
    ensures DeRow(i)
  {
  }

  lemma DeSymbolRow2(i: nat)
    requires 16 <= i < 24
    ensures DeRow(i)
  {
  }

  lemma DeSymbolRow3(i: nat)
    requires 24 <= i < 32
    ensures DeRow(i)
  {
  }

  lemma DeSymbolRow(i: nat)
    requires i < 32
    ensures DeRow(i)
  {
    if i < 8 {
      DeSymbolRow0(i);
    } else if i < 16 {
      DeSymbolRow1(i);
    } else if i < 24 {
      DeSymbolRow2(i);
    } else {
      DeSymbolRow3(i);
    }
  }

  lemma DeExtraRow(i: nat)
    requires i < 9
    ensures var cp := DE_EXTRA[i].0;
            DeKey(DE_EXTRA[i].1) == (if DeAccent(cp) then Dead(cp) else Types(cp)) && DeCharacter(cp)
  {
  }

  lemma DeExtraListed(cp: nat)
    requires DeCharacter(cp) && !Printable(cp)
    ensures exists i | 0 <= i < 9 :: DE_EXTRA[i].0 == cp
  {
    assert DE_EXTRA[0].0 == 0xe4 && DE_EXTRA[1].0 == 0xf6 && DE_EXTRA[2].0 == 0xfc;
    assert DE_EXTRA[3].0 == 0xc4 && DE_EXTRA[4].0 == 0xd6 && DE_EXTRA[5].0 == 0xdc;
    assert DE_EXTRA[6].0 == 0xdf && DE_EXTRA[7].0 == 0x20ac && DE_EXTRA[8].0 == 0xb4;
  }

  /** The German map is defined on exactly printable ASCII plus nine characters; the key it picks
      types that character, or arms it as a dead accent for exactly the four accents. */
  lemma DeFaithful(cp: nat)
    ensures DeStroke(cp).Some? <==> DeCharacter(cp)
    ensures DeCharacter(cp) ==> DeKey(DeStroke(cp).value) == (if DeAccent(cp) then Dead(cp) else Types(cp))
  {
    match DeSymbol(cp, 0)
    case Some(i) => DeSymbolRow(i);
    case None =>
      match DeExtra(cp, 0)
      case Some(i) => DeExtraRow(i);
      case None => DeAlphanumeric(cp);
  }

  lemma DeAlphanumeric(cp: nat)
    requires DeSymbol(cp, 0).None? && DeExtra(cp, 0).None?
    ensures UsStroke(SwapYZ(cp)).Some? <==> DeCharacter(cp)
    ensures DeCharacter(cp) ==> !DeAccent(cp) && DeKey(UsStroke(SwapYZ(cp)).value) == Types(cp)
  {
    if DeCharacter(cp) && !Printable(cp) {
      DeExtraListed(cp);
      assert false;
    } else {
      UsFaithful(SwapYZ(cp));
      if Printable(cp) && !(48 <= cp <= 57 || 65 <= cp <= 90 || 97 <= cp <= 122 || cp == 32) {
        SymbolAt(cp);
        assert false;
      } else if 48 <= cp <= 57 {
        DigitKey(cp);
      }
    }
  }

  lemma DigitKey(cp: nat)
    requires 48 <= cp <= 57
    ensures UsStroke(cp).Some? && UsStroke(cp).value.modifier == 0
    ensures DeKey(UsStroke(cp).value) == Types(cp)
  {
    UsFaithful(cp);
    var s := UsStroke(cp).value;
    UsDigitKey(s, cp);
  }

  lemma UsDigitKey(s: Stroke, cp: nat)
    requires 48 <= cp <= 57 && UsKey(s) == Types(cp)
    ensures s.modifier == 0 && DeKey(s) == Types(cp)
  {
  }

  // ---- Layout-independent view ----

  function MapKey(layout: nat, cp: nat): Option<Stroke> {
    if layout == LAYOUT_DE then DeStroke(cp) else UsStroke(cp)
  }

  function HostKey(layout: nat, s: Stroke): Key {
    if layout == LAYOUT_DE then DeKey(s) else UsKey(s)
  }

  predicate NeedsSpace(layout: nat, cp: nat) {
    layout == LAYOUT_DE && DeAccent(cp)
  }

  predicate Character(layout: nat, cp: nat) {
    if layout == LAYOUT_DE then DeCharacter(cp) else Printable(cp)
  }

  lemma MapFaithful(layout: nat, cp: nat)
    ensures MapKey(layout, cp).Some? <==> Character(layout, cp)
    ensures Character(layout, cp) ==>
              HostKey(layout, MapKey(layout, cp).value) == (if NeedsSpace(layout, cp) then Dead(cp) else Types(cp))
  {
    if layout == LAYOUT_DE {
      DeFaithful(cp);
    } else {
      UsFaithful(cp);
    }
  }

  /** Keys that type something lie within the usages the report descriptor declares (at most
      0x65), and a key that types a graphic character is neither Enter nor Tab. */
  lemma UsageRange(layout: nat, s: Stroke)
    requires HostKey(layout, s) != Nothing
    ensures 4 <= s.usage <= 100
    ensures s == ENTER || s == TAB <==> HostKey(layout, s) in {Types(10), Types(9)}
  {
  }

  /** No key but Enter and Tab has their usages. */
  lemma ControlUsages(layout: nat, s: Stroke)
    requires HostKey(layout, s) != Nothing && s.usage in {0x28, 0x2b}
    ensures s.modifier == 0 && HostKey(layout, s) == if s.usage == 0x28 then Types(10) else Types(9)
  {
  }

  // ---- In numbers ----

  /** Strokes known from the HID usage tables: letters start at usage 4, digits at 30; left shift is
      modifier bit 1, right alt bit 6; and the German layout trades Y for Z. */
  lemma KnownStrokes()
    ensures UsStroke('a' as nat) == Some(Stroke(0, 4)) && UsStroke('Z' as nat) == Some(Stroke(2, 29))
    ensures UsStroke('1' as nat) == Some(Stroke(0, 30)) && UsStroke('!' as nat) == Some(Stroke(2, 30))
    ensures UsStroke(' ' as nat) == Some(Stroke(0, 44)) && UsStroke('?' as nat) == Some(Stroke(2, 56))
    ensures DeStroke('z' as nat) == Some(Stroke(0, 28)) && DeStroke('Y' as nat) == Some(Stroke(2, 29))
    ensures DeStroke('@' as nat) == Some(Stroke(64, 20)) && DeStroke(0x20ac) == Some(Stroke(64, 8))
    ensures DeStroke('^' as nat) == Some(Stroke(0, 53)) && DeStroke(0xdf) == Some(Stroke(0, 45))
  {
    hide UsSlot, DeSymbol, DeExtra;
    UsKnown('1' as nat, Stroke(0, 30));
    UsKnown('!' as nat, Stroke(2, 30));
    UsKnown('?' as nat, Stroke(2, 56));
    DeKnown('z' as nat, Stroke(0, 28));
    DeKnown('Y' as nat, Stroke(2, 29));
    DeKnown('@' as nat, Stroke(64, 20));
    DeKnown(0x20ac, Stroke(64, 8));
    DeKnown('^' as nat, Stroke(0, 53));
    DeKnown(0xdf, Stroke(0, 45));
  }

  /** A key that types a character on the target is the key that the map picks for it, where no other
      key types it. */
  lemma UsKnown(cp: nat, s: Stroke)
    requires (cp, s) in {(49, Stroke(0, 30)), (33, Stroke(2, 30)), (63, Stroke(2, 56))}
    ensures UsStroke(cp) == Some(s)
  {
    hide UsStroke;
    UsFaithful(cp);
    OnlyUsKey(cp, UsStroke(cp).value, s);
  }

  lemma OnlyUsKey(cp: nat, t: Stroke, s: Stroke)
    requires (cp, s) in {(49, Stroke(0, 30)), (33, Stroke(2, 30)), (63, Stroke(2, 56))}
    requires UsKey(t) == Types(cp)
    ensures t == s
  {
  }

  lemma DeKnown(cp: nat, s: Stroke)
    requires (cp, s) in {(122, Stroke(0, 28)), (89, Stroke(2, 29)), (64, Stroke(64, 20)), (0x20ac, Stroke(64, 8)),
                         (94, Stroke(0, 53)), (0xdf, Stroke(0, 45))}
    ensures DeStroke(cp) == Some(s)
  {
    hide DeStroke;
    DeFaithful(cp);
    OnlyDeKey(cp, DeStroke(cp).value, s);
  }

  lemma OnlyDeKey(cp: nat, t: Stroke, s: Stroke)
    requires (cp, s) in {(122, Stroke(0, 28)), (89, Stroke(2, 29)), (64, Stroke(64, 20)), (0x20ac, Stroke(64, 8)),
                         (94, Stroke(0, 53)), (0xdf, Stroke(0, 45))}
    requires DeKey(t) == if DeAccent(cp) then Dead(cp) else Types(cp)
    ensures t == s
  {
  }

  /** Every stroke presses no modifier, left shift alone, or right alt alone, and shift exactly where
      the US keyboard shows the character on the upper half of its key. */
  lemma ModifierBits(layout: nat, cp: nat)
    requires MapKey(layout, cp).Some?
    ensures MapKey(layout, cp).value.modifier in {0, 2, 64}
    ensures 65 <= cp <= 90 ==> MapKey(layout, cp).value.modifier == 2
    ensures 97 <= cp <= 122 ==> MapKey(layout, cp).value.modifier == 0
  {
    MapFaithful(layout, cp);
    if layout == LAYOUT_DE {
      match DeSymbol(cp, 0)
      case Some(i) => DeSymbolModifier(i);
      case None =>
    }
  }

  lemma DeSymbolModifier(i: nat)
    requires i < 32
    ensures DE_KEYS[i].modifier in {0, 2, 64}
    ensures var cp := DE_SYMBOLS[i] as nat; !(65 <= cp <= 90) && !(97 <= cp <= 122)
  {
  }
}

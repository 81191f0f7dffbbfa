/** From UTF-8 text to key strokes and back: what a stage call compiles, what the target machine
    then reads, and that the two agree. */
module Compiler {
  import opened Bytes
  import opened Utf8
  import opened Keymap

  /** `bridge_status_t`. */
  datatype Status =
    | Ok | Done | ErrArgument | ErrState | ErrBusy | ErrLimit | ErrUtf8 | ErrUnsupported
    | ErrPolicy | ErrOwner | ErrId | ErrExpired | ErrReplay

  const MODE_PASSWORD: nat := 1
  const MODE_TEXT: nat := 2

  /** The policy half of a stage request. */
  datatype Policy = Policy(layout: nat, mode: nat, flags: Byte) {
    predicate AllowLf() {
      mode == MODE_TEXT && flags % 2 == 1
    }

    predicate AllowTab() {
      mode == MODE_TEXT && flags / 2 % 2 == 1
    }
  }

  datatype Compiled = Strokes(strokes: seq<Stroke>) | Reject(status: Status)

  function Prepend(done: seq<Stroke>, rest: Compiled): Compiled {
    match rest
    case Strokes(s) => Strokes(done + s)
    case Reject(_) => rest
  }

  // ---- Compilation ----

  /** The character at the head of `text` after folding CR LF into LF, with the bytes it takes. */
  function Head(text: seq<Byte>, p: Policy): (d: Decoded)
    requires text != []
    ensures d.Char? ==> 1 <= d.size <= |text|
  {
    match DecodeOne(text)
    case Bad => Bad
    case Char(cp, size) =>
      if cp == 13 && p.AllowLf() && size < |text| && text[size] == 10 then Char(10, size + 1) else Char(cp, size)
  }

  /** The strokes of one character: a control key, one key, or a dead key and a space. */
  function CompileChar(cp: nat, p: Policy): Compiled {
    if cp < 32 || cp == 127 then
      if cp == 10 && p.AllowLf() then Strokes([ENTER])
      else if cp == 9 && p.AllowTab() then Strokes([TAB])
      else Reject(ErrPolicy)
    else
      match MapKey(p.layout, cp)
      case None => Reject(ErrUnsupported)
      case Some(s) => Strokes(if NeedsSpace(p.layout, cp) then [s, SPACE] else [s])
  }

  function Compile(text: seq<Byte>, p: Policy): Compiled
    decreases |text|
  {
    if text == [] then Strokes([])
    else
      match Head(text, p)
      case Bad => Reject(ErrUtf8)
      case Char(cp, size) =>
        match CompileChar(cp, p)
        case Reject(status) => Reject(status)
        case Strokes(s) => Prepend(s, Compile(text[size..], p))
  }

  /** Compiled text never needs more than two strokes a byte, so 1024 bytes fit 2048 strokes. */
  lemma {:induction false} StrokeBound(text: seq<Byte>, p: Policy)
    requires Compile(text, p).Strokes?
    ensures |Compile(text, p).strokes| <= 2 * |text|
    decreases |text|
  {
    if text != [] {
      StrokeBound(text[Head(text, p).size..], p);
    }
  }

  // ---- The target machine ----

  /** What the target has read so far, and the dead accent it is holding back. */
  datatype Host = Host(text: seq<nat>, pending: Option<nat>)

  /** `compose` is the target's own table for an accent followed by a character; nothing is
      assumed about it. */
  type Compose = (nat, nat) -> seq<nat>

  function Press(h: Host, key: Key, compose: Compose): Host {
    match key
    case Nothing => h
    case Dead(a) => Host(if h.pending.Some? then h.text + [h.pending.value] else h.text, Some(a))
    case Types(c) =>
      if h.pending.None? then Host(h.text + [c], None)
      else if c == 32 then Host(h.text + [h.pending.value], None)
      else Host(h.text + compose(h.pending.value, c), None)
  }

  function Type(h: Host, layout: nat, strokes: seq<Stroke>, compose: Compose): Host
    decreases |strokes|
  {
    if strokes == [] then h
    else Type(Press(h, HostKey(layout, strokes[0]), compose), layout, strokes[1..], compose)
  }

  lemma {:induction false} TypeConcat(h: Host, layout: nat, a: seq<Stroke>, b: seq<Stroke>, compose: Compose)
    ensures Type(h, layout, a + b, compose) == Type(Type(h, layout, a, compose), layout, b, compose)
    decreases |a|
  {
    if a == [] {
      assert a + b == b;
    } else {
      assert (a + b)[0] == a[0] && (a + b)[1..] == a[1..] + b;
      TypeConcat(Press(h, HostKey(layout, a[0]), compose), layout, a[1..], b, compose);
    }
  }

  // ---- The meaning of text ----

  function DecodeAll(text: seq<Byte>): Option<seq<nat>>
    decreases |text|
  {
    if text == [] then Some([])
    else
      match DecodeOne(text)
      case Bad => None
      case Char(cp, size) =>
        match DecodeAll(text[size..])
        case None => None
        case Some(rest) => Some([cp] + rest)
  }

  /** Decoding a whole text is exactly inverting the encoding of section 3 of RFC 3629. */
  lemma {:induction false} DecodeAllSound(text: seq<Byte>)
    requires DecodeAll(text).Some?
    ensures var cps := DecodeAll(text).value; Scalars(cps) && EncodeAll(cps) == text
    decreases |text|
  {
    hide DecodeOne, Encode;
    if text != [] {
      var d := DecodeOne(text);
      DecodeSound(text);
      DecodeAllSound(text[d.size..]);
      var cps := DecodeAll(text).value;
      assert cps[1..] == DecodeAll(text[d.size..]).value;
      assert text == text[..d.size] + text[d.size..];
    }
  }

  lemma {:induction false} DecodeAllComplete(cps: seq<nat>)
    requires Scalars(cps)
    ensures DecodeAll(EncodeAll(cps)) == Some(cps)
  {
    if cps != [] {
      var e, rest := Encode(cps[0]), EncodeAll(cps[1..]);
      DecodeComplete(cps[0], rest);
      DecodeAllComplete(cps[1..]);
      assert (e + rest)[|e|..] == rest;
      assert [cps[0]] + cps[1..] == cps;
    }
  }

  /** CR LF read as LF. */
  function FoldCrLf(cps: seq<nat>): seq<nat> {
    if cps == [] then []
    else if cps[0] == 13 && |cps| > 1 && cps[1] == 10 then [10] + FoldCrLf(cps[2..])
    else [cps[0]] + FoldCrLf(cps[1..])
  }

  /** The characters a job may contain: those of its layout, plus in text mode LF under flag bit 0 and
      Tab under flag bit 1. */
  predicate Allowed(p: Policy, cp: nat) {
    || Character(p.layout, cp)
    || (cp == 10 && p.mode == 2 && p.flags % 2 == 1)
    || (cp == 9 && p.mode == 2 && p.flags / 2 % 2 == 1)
  }

  predicate AllAllowed(p: Policy, cps: seq<nat>) {
    forall i | 0 <= i < |cps| :: Allowed(p, cps[i])
  }

  /** What the bytes say: the decoded characters with CR LF folded. */
  function Meaning(text: seq<Byte>): seq<nat> {
    match DecodeAll(text)
    case None => []
    case Some(cps) => FoldCrLf(cps)
  }

  lemma CharAccepted(cp: nat, p: Policy)
    ensures CompileChar(cp, p).Strokes? <==> Allowed(p, cp)
  {
    MapFaithful(p.layout, cp);
  }

  lemma CharTyped(cp: nat, p: Policy, h: Host, compose: Compose)
    requires h.pending.None? && CompileChar(cp, p).Strokes?
    ensures Type(h, p.layout, CompileChar(cp, p).strokes, compose) == Host(h.text + [cp], None)
  {
    MapFaithful(p.layout, cp);
    var s := CompileChar(cp, p).strokes;
    var one := Press(h, HostKey(p.layout, s[0]), compose);
    assert s[1..] == if |s| == 2 then [SPACE] else [];
    assert Type(one, p.layout, [], compose) == one;
    if |s| == 2 {
      assert Type(one, p.layout, [SPACE], compose) == Press(one, HostKey(p.layout, SPACE), compose);
    }
  }

  /** How folding CR LF at the byte level shows in the decoded characters. */
  lemma HeadDecodes(text: seq<Byte>, p: Policy)
    requires text != [] && Head(text, p).Char?
    ensures DecodeAll(text).Some? == DecodeAll(text[Head(text, p).size..]).Some?
  {
    var one := DecodeOne(text);
    if Head(text, p).size != one.size {
      assert text[one.size..][1..] == text[Head(text, p).size..];
    }
  }

  lemma HeadMeans(text: seq<Byte>, p: Policy)
    requires text != [] && Head(text, p).Char? && DecodeAll(text).Some?
    requires Head(text, p).cp != 13
    ensures Meaning(text) == [Head(text, p).cp] + Meaning(text[Head(text, p).size..])
  {
    HeadDecodes(text, p);
    var d := Head(text, p);
    var rest := DecodeAll(text[d.size..]).value;
    if d.size != DecodeOne(text).size {
      var after := text[DecodeOne(text).size..];
      assert after[1..] == text[d.size..];
      assert DecodeAll(after).value == [10] + rest;
      var cps := [13] + ([10] + rest);
      assert DecodeAll(text).value == cps;
      assert cps[2..] == rest;
    } else {
      var cps := [d.cp] + rest;
      assert DecodeAll(text).value == cps;
      assert cps[1..] == rest;
    }
  }

  /** A carriage return that the policy does not fold is never a legal head. */
  lemma BareReturn(text: seq<Byte>, p: Policy)
    requires text != [] && Head(text, p).Char? && DecodeAll(text).Some?
    requires Head(text, p).cp == 13
    ensures Meaning(text) != [] && !Allowed(p, Meaning(text)[0])
  {
    var cps := DecodeAll(text).value;
    if |cps| > 1 && cps[1] == 10 {
      var after := text[DecodeOne(text).size..];
      assert DecodeAll(after).value == cps[1..];
      DecodeSound(after);
      assert after[0] == 10;
    }
  }

  ghost predicate Acceptable(text: seq<Byte>, p: Policy) {
    DecodeAll(text).Some? && AllAllowed(p, Meaning(text))
  }

  lemma AllAllowedCons(p: Policy, cp: nat, tail: seq<nat>)
    ensures AllAllowed(p, [cp] + tail) <==> Allowed(p, cp) && AllAllowed(p, tail)
  {
    assert ([cp] + tail)[0] == cp;
    assert forall i | 0 <= i < |tail| :: ([cp] + tail)[i + 1] == tail[i];
  }

  /** A text compiles exactly when it is UTF-8 whose characters, CR LF folded, are all allowed. */
  lemma {:induction false} AcceptsExactly(text: seq<Byte>, p: Policy)
    ensures Compile(text, p).Strokes? <==> Acceptable(text, p)
    decreases |text|
  {
    if text != [] && Head(text, p).Char? {
      var d := Head(text, p);
      var rest := text[d.size..];
      CharAccepted(d.cp, p);
      HeadDecodes(text, p);
      AcceptsExactly(rest, p);
      if DecodeAll(text).Some? {
        if d.cp == 13 {
          BareReturn(text, p);
        } else {
          HeadMeans(text, p);
          AllAllowedCons(p, d.cp, Meaning(rest));
        }
      }
    }
  }

  lemma TypeTwo(h: Host, layout: nat, a: seq<Stroke>, b: seq<Stroke>, cp: nat, tail: seq<nat>, compose: Compose)
    requires Type(h, layout, a, compose) == Host(h.text + [cp], None)
    requires Type(Host(h.text + [cp], None), layout, b, compose) == Host((h.text + [cp]) + tail, None)
    ensures Type(h, layout, a + b, compose) == Host(h.text + ([cp] + tail), None)
  {
    TypeConcat(h, layout, a, b, compose);
    assert (h.text + [cp]) + tail == h.text + ([cp] + tail);
  }

  /** Meaning preservation: the target reads exactly the text's characters, with no accent left
      pending, whatever it held before and whatever its compose table. */
  lemma {:induction false} MeaningPreserved(text: seq<Byte>, p: Policy, h: Host, compose: Compose)
    requires h.pending.None? && Compile(text, p).Strokes?
    ensures Type(h, p.layout, Compile(text, p).strokes, compose) == Host(h.text + Meaning(text), None)
    decreases |text|
  {
    if text == [] {
      assert h.text + [] == h.text;
    } else {
      var d := Head(text, p);
      var rest := text[d.size..];
      AcceptsExactly(text, p);
      CharTyped(d.cp, p, h, compose);
      HeadMeans(text, p);
      MeaningPreserved(rest, p, Host(h.text + [d.cp], None), compose);
      TypeTwo(h, p.layout, CompileChar(d.cp, p).strokes, Compile(rest, p).strokes, d.cp, Meaning(rest), compose);
    }
  }

  /** The stroke code is uniquely decodable: equal strokes come from equal texts. */
  lemma UniquelyDecodable(a: seq<Byte>, b: seq<Byte>, p: Policy, q: Policy)
    requires p.layout == q.layout
    requires Compile(a, p).Strokes? && Compile(b, q).Strokes?
    requires Compile(a, p).strokes == Compile(b, q).strokes
    ensures Meaning(a) == Meaning(b)
  {
    var compose: Compose := (x, y) => [];
    MeaningPreserved(a, p, Host([], None), compose);
    MeaningPreserved(b, q, Host([], None), compose);
    assert [] + Meaning(a) == Meaning(a) && [] + Meaning(b) == Meaning(b);
  }

  // ---- What compiled strokes look like ----

  predicate Typeable(s: Stroke) {
    4 <= s.usage <= 100
  }

  ghost predicate Safe(s: Stroke, p: Policy) {
    && Typeable(s)
    && (s.usage == 0x28 ==> s.modifier == 0 && p.mode == 2 && p.flags % 2 == 1)
    && (s.usage == 0x2b ==> s.modifier == 0 && p.mode == 2 && p.flags / 2 % 2 == 1)
  }

  lemma CharSafe(cp: nat, p: Policy)
    requires CompileChar(cp, p).Strokes?
    ensures forall s <- CompileChar(cp, p).strokes :: Safe(s, p)
  {
    hide MapKey, HostKey;
    if cp >= 32 && cp != 127 {
      MapFaithful(p.layout, cp);
      var s := MapKey(p.layout, cp).value;
      UsageRange(p.layout, s);
      if s.usage in {0x28, 0x2b} {
        ControlUsages(p.layout, s);
      }
    }
  }

  /** Every stroke lies in the descriptor's usage range; Enter is typed only in text mode under flag
      bit 0, Tab only in text mode under flag bit 1, so a password job contains neither. */
  lemma {:induction false} StrokesAreSafe(text: seq<Byte>, p: Policy)
    requires Compile(text, p).Strokes?
    ensures forall s <- Compile(text, p).strokes :: Safe(s, p)
    decreases |text|
  {
    hide CompileChar, DecodeOne, Safe;
    if text != [] {
      var d := Head(text, p);
      StrokesAreSafe(text[d.size..], p);
      CharSafe(d.cp, p);
    }
  }

  // ---- Why a text is refused ----

  /** What is left of a text from its first character that is not allowed on. */
  function Offender(text: seq<Byte>, p: Policy): seq<Byte>
    decreases |text|
  {
    if text == [] || Head(text, p).Bad? || !Allowed(p, Head(text, p).cp) then text
    else Offender(text[Head(text, p).size..], p)
  }

  /** The error names the first offence: bytes that are no UTF-8, then a control character the policy
      does not allow, or a character the layout does not have. */
  lemma {:induction false} RejectionNamesOffender(text: seq<Byte>, p: Policy)
    requires Compile(text, p).Reject?
    ensures var bad := Offender(text, p);
            && bad != []
            && Compile(text, p).status ==
               match DecodeOne(bad)
               case Bad => ErrUtf8
               case Char(cp, _) => if cp < 32 || cp == 127 then ErrPolicy else ErrUnsupported
    decreases |text|
  {
    var d := Head(text, p);
    if d.Char? {
      CharAccepted(d.cp, p);
      if CompileChar(d.cp, p).Strokes? {
        RejectionNamesOffender(text[d.size..], p);
      }
    }
  }

  /** The flag bits of a policy in text mode: 1 allows LF, 2 allows Tab, 3 both; no other mode allows
      either. */
  lemma FlagBits(p: Policy)
    requires p.flags < 4
    ensures Compile([10], p) == (if p.mode == 2 && p.flags in {1, 3} then Strokes([Stroke(0, 0x28)]) else Reject(ErrPolicy))
    ensures Compile([9], p) == (if p.mode == 2 && p.flags in {2, 3} then Strokes([Stroke(0, 0x2b)]) else Reject(ErrPolicy))
    ensures Compile([13, 10], p) ==
              (if p.mode == 2 && p.flags in {1, 3} then Strokes([Stroke(0, 0x28)]) else Reject(ErrPolicy))
  {
    OneControl(10, p);
    OneControl(9, p);
    var text: seq<Byte> := [13, 10];
    assert text[2..] == [];
    assert [ENTER] + [] == [ENTER];
  }

  lemma OneControl(b: Byte, p: Policy)
    requires b < 32 && b != 13
    ensures Compile([b], p) == CompileChar(b, p)
  {
    var text: seq<Byte> := [b];
    assert text[1..] == [];
    if CompileChar(b, p).Strokes? {
      assert CompileChar(b, p).strokes + [] == CompileChar(b, p).strokes;
    }
  }
}

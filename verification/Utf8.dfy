/** The strict UTF-8 decoder of the typing core, and the definition of UTF-8 it is measured
    against: the encoding of section 3 and the grammar of section 4 of RFC 3629. */
module Utf8 {
  import opened Bytes

  // ---- The standard ----

  predicate Scalar(cp: int) {
    0 <= cp < 0xd800 || 0xe000 <= cp <= 0x10ffff
  }

  /** Section 3 of RFC 3629: the octets of one character number. */
  function Encode(cp: int): (s: seq<Byte>)
    requires Scalar(cp)
    ensures 1 <= |s| <= 4
  {
    if cp < 0x80 then [cp]
    else if cp < 0x800 then [0xc0 + cp / 64, 0x80 + cp % 64]
    else if cp < 0x10000 then [0xe0 + cp / 4096, 0x80 + cp / 64 % 64, 0x80 + cp % 64]
    else [0xf0 + cp / 262144, 0x80 + cp / 4096 % 64, 0x80 + cp / 64 % 64, 0x80 + cp % 64]
  }

  predicate Scalars(cps: seq<int>) {
    forall i | 0 <= i < |cps| :: Scalar(cps[i])
  }

  function EncodeAll(cps: seq<int>): (s: seq<Byte>)
    requires Scalars(cps)
    ensures |s| >= |cps|
  {
    if cps == [] then [] else Encode(cps[0]) + EncodeAll(cps[1..])
  }

  predicate Tail(b: Byte) {
    0x80 <= b <= 0xbf
  }

  /** Section 4 of RFC 3629: UTF8-char = UTF8-1 / UTF8-2 / UTF8-3 / UTF8-4. */
  predicate Utf8Char(s: seq<Byte>) {
    || (|s| == 1 && s[0] <= 0x7f)
    || (|s| == 2 && 0xc2 <= s[0] <= 0xdf && Tail(s[1]))
    || (|s| == 3 && Tail(s[2]) &&
        (|| (s[0] == 0xe0 && 0xa0 <= s[1] <= 0xbf)
         || (0xe1 <= s[0] <= 0xec && Tail(s[1]))
         || (s[0] == 0xed && 0x80 <= s[1] <= 0x9f)
         || (0xee <= s[0] <= 0xef && Tail(s[1]))))
    || (|s| == 4 && Tail(s[2]) && Tail(s[3]) &&
        (|| (s[0] == 0xf0 && 0x90 <= s[1] <= 0xbf)
         || (0xf1 <= s[0] <= 0xf3 && Tail(s[1]))
         || (s[0] == 0xf4 && 0x80 <= s[1] <= 0x8f)))
  }

  // ---- The decoder ----

  datatype Decoded = Bad | Char(cp: nat, size: nat)

  /** `cp = (cp << 6) | (byte & 0x3f)` over a run of continuation bytes. */
  function Accumulate(cp: nat, tail: seq<Byte>): nat {
    if tail == [] then cp else Accumulate(cp, tail[..|tail| - 1]) * 64 + tail[|tail| - 1] % 64
  }

  predicate Continuations(tail: seq<Byte>) {
    forall i | 0 <= i < |tail| :: tail[i] / 64 == 2
  }

  predicate InRange(cp: nat, minimum: nat) {
    minimum <= cp <= 0x10ffff && !(0xd800 <= cp <= 0xdfff)
  }

  /** What a lead byte announces: payload bits, continuation count and smallest legal value. */
  function Lead(b: Byte): Option<(nat, nat, nat)> {
    if 0xc2 <= b <= 0xdf then Some((b % 32, 1, 0x80))
    else if 0xe0 <= b <= 0xef then Some((b % 16, 2, 0x800))
    else if 0xf0 <= b <= 0xf4 then Some((b % 8, 3, 0x10000))
    else None
  }

  /** Decoding the first character of a non-empty byte string. */
  function DecodeOne(s: seq<Byte>): (d: Decoded)
    requires s != []
    ensures d.Char? ==> 1 <= d.size <= |s| && d.size <= 4
  {
    if s[0] < 0x80 then Char(s[0], 1)
    else
      match Lead(s[0])
      case None => Bad
      case Some((bits, n, minimum)) =>
        if |s| - 1 < n || !Continuations(s[1..1 + n]) then Bad
        else
          var cp := Accumulate(bits, s[1..1 + n]);
          if InRange(cp, minimum) then Char(cp, 1 + n) else Bad
  }

  /** `decode_utf8`: decodes the character at `offset` of the first `length` bytes. */
  method DecodeUtf8(input: seq<Byte>, length: nat, offset: nat) returns (ok: bool, next: nat, cp: nat)
    requires offset < length <= |input|
    ensures ok == DecodeOne(input[offset..length]).Char?
    ensures offset < next <= length
    ensures ok ==> DecodeOne(input[offset..length]) == Char(cp, next - offset)
  {
    ghost var s := input[offset..length];
    var lead := input[offset];
    next := offset + 1;
    cp := lead;
    if lead < 0x80 { return true, next, cp; }
    var continuation, minimum;
    if 0xc2 <= lead <= 0xdf {
      cp, continuation, minimum := lead % 32, 1, 0x80;
    } else if 0xe0 <= lead <= 0xef {
      cp, continuation, minimum := lead % 16, 2, 0x800;
    } else if 0xf0 <= lead <= 0xf4 {
      cp, continuation, minimum := lead % 8, 3, 0x10000;
    } else {
      return false, next, cp;
    }
    if length - next < continuation { return false, next, cp; }
    SubSlice(input, offset, length, next, next + continuation);
    ok, next, cp := ReadContinuations(input, next, continuation, cp);
    ok := ok && InRange(cp, minimum);
  }

  /** The continuation loop of `decode_utf8`. */
  method ReadContinuations(input: seq<Byte>, start: nat, n: nat, bits: nat) returns (ok: bool, next: nat, cp: nat)
    requires start + n <= |input|
    ensures start <= next <= start + n
    ensures ok == Continuations(input[start..start + n])
    ensures ok ==> next == start + n && cp == Accumulate(bits, input[start..start + n])
  {
    ghost var t := input[start..start + n];
    next, cp := start, bits;
    for i := 0 to n
      invariant next == start + i
      invariant Continuations(t[..i])
      invariant cp == Accumulate(bits, t[..i])
    {
      var byte := input[next];
      assert byte == t[i];
      next := next + 1;
      if byte / 64 != 2 { return false, next, cp; }
      cp := cp * 64 + byte % 64;
      assert t[..i + 1][..i] == t[..i];
    }
    assert t[..n] == t;
    ok := true;
  }

  // ---- Exactness ----

  /** Whatever the decoder accepts is the one encoding of a scalar value. */
  lemma DecodeSound(s: seq<Byte>)
    requires s != [] && DecodeOne(s).Char?
    ensures var d := DecodeOne(s); Scalar(d.cp) && s[..d.size] == Encode(d.cp)
  {
    if s[0] >= 0x80 {
      var (bits, n, minimum) := Lead(s[0]).value;
      var t := s[1..1 + n];
      assert s[..1 + n] == [s[0]] + t;
      if n == 1 {
        TwoBytes(s[0], t);
      } else if n == 2 {
        ThreeBytes(s[0], t);
      } else {
        FourBytes(s[0], t);
      }
    }
  }

  lemma ContinuationDigit(b: Byte)
    requires b / 64 == 2
    ensures b == 0x80 + b % 64 && b % 64 < 64
  {
  }

  lemma TwoBytes(lead: Byte, t: seq<Byte>)
    requires 0xc2 <= lead <= 0xdf && |t| == 1 && Continuations(t)
    ensures var cp := Accumulate(lead % 32, t); Scalar(cp) && Encode(cp) == [lead] + t
  {
    var a: nat, b: nat := lead % 32, t[0] % 64;
    assert Accumulate(a, t) == a * 64 + b by { AccumulateValue(a, t); }
    assert [lead] + t == [0xc0 + a, 0x80 + b] by { ContinuationDigit(t[0]); }
    EncodeTwo(a, b);
  }

  lemma ThreeBytes(lead: Byte, t: seq<Byte>)
    requires 0xe0 <= lead <= 0xef && |t| == 2 && Continuations(t)
    requires InRange(Accumulate(lead % 16, t), 0x800)
    ensures var cp := Accumulate(lead % 16, t); Scalar(cp) && Encode(cp) == [lead] + t
  {
    var a: nat, b: nat, c: nat := lead % 16, t[0] % 64, t[1] % 64;
    assert Accumulate(a, t) == (a * 64 + b) * 64 + c by { AccumulateValue(a, t); }
    assert [lead] + t == [0xe0 + a, 0x80 + b, 0x80 + c] by {
      ContinuationDigit(t[0]);
      ContinuationDigit(t[1]);
    }
    EncodeThree(a, b, c);
  }

  lemma FourBytes(lead: Byte, t: seq<Byte>)
    requires 0xf0 <= lead <= 0xf4 && |t| == 3 && Continuations(t)
    requires InRange(Accumulate(lead % 8, t), 0x10000)
    ensures var cp := Accumulate(lead % 8, t); Scalar(cp) && Encode(cp) == [lead] + t
  {
    var a: nat, b: nat, c: nat, d: nat := lead % 8, t[0] % 64, t[1] % 64, t[2] % 64;
    assert Accumulate(a, t) == ((a * 64 + b) * 64 + c) * 64 + d by { AccumulateValue(a, t); }
    assert [lead] + t == [0xf0 + a, 0x80 + b, 0x80 + c, 0x80 + d] by {
      ContinuationDigit(t[0]);
      ContinuationDigit(t[1]);
      ContinuationDigit(t[2]);
    }
    EncodeFour(a, b, c, d);
  }

  lemma EncodeTwo(a: nat, b: nat)
    requires b < 64 && 0x80 <= a * 64 + b < 0x800
    ensures Encode(a * 64 + b) == [0xc0 + a, 0x80 + b]
  {
    SplitTwo(a, b);
  }

  lemma EncodeThree(a: nat, b: nat, c: nat)
    requires b < 64 && c < 64
    requires var cp := (a * 64 + b) * 64 + c; 0x800 <= cp < 0x10000 && Scalar(cp)
    ensures Encode((a * 64 + b) * 64 + c) == [0xe0 + a, 0x80 + b, 0x80 + c]
  {
    SplitThree(a, b, c);
  }

  lemma EncodeFour(a: nat, b: nat, c: nat, d: nat)
    requires b < 64 && c < 64 && d < 64
    requires 0x10000 <= ((a * 64 + b) * 64 + c) * 64 + d <= 0x10ffff
    ensures Encode(((a * 64 + b) * 64 + c) * 64 + d) == [0xf0 + a, 0x80 + b, 0x80 + c, 0x80 + d]
  {
    SplitFour(a, b, c, d);
  }

  lemma AccumulateValue(bits: nat, t: seq<Byte>)
    requires 1 <= |t| <= 3
    ensures |t| == 1 ==> Accumulate(bits, t) == bits * 64 + t[0] % 64
    ensures |t| == 2 ==> Accumulate(bits, t) == (bits * 64 + t[0] % 64) * 64 + t[1] % 64
    ensures |t| == 3 ==> Accumulate(bits, t) == ((bits * 64 + t[0] % 64) * 64 + t[1] % 64) * 64 + t[2] % 64
  {
    assert t[..1][..0] == [];
    assert Accumulate(bits, t[..1]) == bits * 64 + t[0] % 64;
    if |t| >= 2 {
      assert t[..2][..1] == t[..1];
      assert Accumulate(bits, t[..2]) == Accumulate(bits, t[..1]) * 64 + t[1] % 64;
    }
    assert t[..|t|] == t;
  }

  lemma SplitTwo(a: nat, b: nat)
    requires b < 64
    ensures var cp := a * 64 + b; cp / 64 == a && cp % 64 == b
  {
  }

  lemma SplitThree(a: nat, b: nat, c: nat)
    requires b < 64 && c < 64
    ensures var cp := (a * 64 + b) * 64 + c; cp / 4096 == a && cp / 64 % 64 == b && cp % 64 == c
  {
    SplitTwo(a * 64 + b, c);
    SplitTwo(a, b);
  }

  lemma SplitFour(a: nat, b: nat, c: nat, d: nat)
    requires b < 64 && c < 64 && d < 64
    ensures var cp := ((a * 64 + b) * 64 + c) * 64 + d;
            cp / 262144 == a && cp / 4096 % 64 == b && cp / 64 % 64 == c && cp % 64 == d
  {
    SplitThree(a * 64 + b, c, d);
    SplitTwo(a, b);
  }

  /** The encoding of every scalar value is accepted, whatever follows it. */
  lemma DecodeComplete(cp: int, rest: seq<Byte>)
    requires Scalar(cp)
    ensures DecodeOne(Encode(cp) + rest) == Char(cp, |Encode(cp)|)
  {
    var e := Encode(cp);
    var s := e + rest;
    assert s[0] == e[0];
    if cp >= 0x80 {
      EncodedParts(cp);
      assert s[1..|e|] == e[1..];
    }
  }

  ghost predicate Decodes(e: seq<Byte>, cp: int) {
    && |e| > 1 && e[0] >= 0x80
    && Lead(e[0]).Some? && Lead(e[0]).value.1 == |e| - 1
    && Continuations(e[1..])
    && Accumulate(Lead(e[0]).value.0, e[1..]) == cp
    && InRange(cp, Lead(e[0]).value.2)
  }

  lemma EncodedParts(cp: int)
    requires Scalar(cp) && cp >= 0x80
    ensures Decodes(Encode(cp), cp)
  {
    if cp < 0x800 {
      var a, b := cp / 64, cp % 64;
      assert cp == a * 64 + b by { JoinDigits(cp); }
      PartsTwo(a, b);
    } else if cp < 0x10000 {
      var a, b, c := cp / 4096, cp / 64 % 64, cp % 64;
      assert cp == (a * 64 + b) * 64 + c by { JoinDigits(cp); }
      PartsThree(a, b, c);
    } else {
      var a, b, c, d := cp / 262144, cp / 4096 % 64, cp / 64 % 64, cp % 64;
      assert cp == ((a * 64 + b) * 64 + c) * 64 + d by { JoinDigits(cp); }
      PartsFour(a, b, c, d);
    }
  }

  lemma PartsTwo(a: nat, b: nat)
    requires b < 64 && 0x80 <= a * 64 + b < 0x800
    ensures Decodes([0xc0 + a, 0x80 + b], a * 64 + b)
  {
    var e: seq<Byte> := [0xc0 + a, 0x80 + b];
    AccumulateValue(a, e[1..]);
  }

  lemma PartsThree(a: nat, b: nat, c: nat)
    requires b < 64 && c < 64
    requires var cp := (a * 64 + b) * 64 + c; 0x800 <= cp < 0x10000 && Scalar(cp)
    ensures Decodes([0xe0 + a, 0x80 + b, 0x80 + c], (a * 64 + b) * 64 + c)
  {
    var e: seq<Byte> := [0xe0 + a, 0x80 + b, 0x80 + c];
    AccumulateValue(a, e[1..]);
  }

  lemma PartsFour(a: nat, b: nat, c: nat, d: nat)
    requires b < 64 && c < 64 && d < 64
    requires 0x10000 <= ((a * 64 + b) * 64 + c) * 64 + d <= 0x10ffff
    ensures Decodes([0xf0 + a, 0x80 + b, 0x80 + c, 0x80 + d], ((a * 64 + b) * 64 + c) * 64 + d)
  {
    var e: seq<Byte> := [0xf0 + a, 0x80 + b, 0x80 + c, 0x80 + d];
    AccumulateValue(a, e[1..]);
  }

  lemma JoinDigits(cp: nat)
    ensures cp / 64 * 64 + cp % 64 == cp
    ensures (cp / 4096 * 64 + cp / 64 % 64) * 64 + cp % 64 == cp
    ensures ((cp / 262144 * 64 + cp / 4096 % 64) * 64 + cp / 64 % 64) * 64 + cp % 64 == cp
  {
    assert cp / 64 / 64 == cp / 4096;
    assert cp / 4096 / 64 == cp / 262144;
  }

  /** A byte string starts with a decodable character exactly when it starts with a UTF8-char
      of the section 4 grammar, and the decoder takes exactly that prefix. */
  lemma DecodeMatchesGrammar(s: seq<Byte>, n: nat)
    requires s != [] && n <= |s|
    ensures (DecodeOne(s).Char? && DecodeOne(s).size == n) <==> Utf8Char(s[..n])
  {
    var d := DecodeOne(s);
    if d.Char? && d.size == n {
      DecodeSound(s);
      EncodeInGrammar(d.cp);
    }
    if Utf8Char(s[..n]) {
      var c := s[..n];
      GrammarIsEncoding(c);
      var cp :| Scalar(cp) && Encode(cp) == c;
      DecodeComplete(cp, s[n..]);
      assert s == c + s[n..];
    }
  }

  lemma EncodeInGrammar(cp: int)
    requires Scalar(cp)
    ensures Utf8Char(Encode(cp))
  {
    JoinDigits(cp);
  }

  lemma GrammarIsEncoding(c: seq<Byte>)
    requires Utf8Char(c)
    ensures exists cp :: Scalar(cp) && Encode(cp) == c
  {
    if |c| == 1 {
      assert Encode(c[0]) == c;
    } else if |c| == 2 {
      var a: int, b: int := c[0] - 0xc0, c[1] - 0x80;
      EncodeTwo(a, b);
      assert Encode(a * 64 + b) == c;
    } else if |c| == 3 {
      var a: int, b: int, d: int := c[0] - 0xe0, c[1] - 0x80, c[2] - 0x80;
      EncodeThree(a, b, d);
      assert Encode((a * 64 + b) * 64 + d) == c;
    } else {
      var a: int, b: int, d: int, e: int := c[0] - 0xf0, c[1] - 0x80, c[2] - 0x80, c[3] - 0x80;
      EncodeFour(a, b, d, e);
      assert Encode(((a * 64 + b) * 64 + d) * 64 + e) == c;
    }
  }
}

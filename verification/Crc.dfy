/** CRC-32: the bit-by-bit loop of the firmware, the table form of section 8 of RFC 1952 that
    zlib uses on the host, and the error-detection property that both flash records rely on.
    Registers are natural numbers below 2^32; exclusive or is defined bit by bit. */
module Crc {
  import opened Bytes

  const POLYNOMIAL: nat := 0xedb8_8320
  const ALL_ONES: nat := 0xffff_ffff

  /** Bitwise exclusive or. */
  function Xor(a: nat, b: nat): nat
    decreases a + b
  {
    if a == 0 && b == 0 then 0 else (a + b) % 2 + 2 * Xor(a / 2, b / 2)
  }

  /** One bit step of the register. */
  function Step(c: nat): nat {
    if c % 2 == 1 then Xor(c / 2, POLYNOMIAL) else c / 2
  }

  function Steps(c: nat, n: nat): nat {
    if n == 0 then c else Step(Steps(c, n - 1))
  }

  /** Absorbing one byte: xor it into the low bits, then eight bit steps. */
  function Absorb(c: nat, b: Byte): nat {
    Steps(Xor(c, b), 8)
  }

  /** The register after absorbing a whole byte string. */
  function Feed(c: nat, data: seq<Byte>): nat {
    if data == [] then c else Absorb(Feed(c, data[..|data| - 1]), data[|data| - 1])
  }

  function Crc32(data: seq<Byte>): nat {
    Xor(Feed(ALL_ONES, data), ALL_ONES)
  }

  /** The firmware's checksum loop over a running register. */
  method Update(start: nat, data: seq<Byte>) returns (crc: nat)
    ensures crc == Feed(start, data)
  {
    crc := start;
    for i := 0 to |data|
      invariant crc == Feed(start, data[..i])
    {
      ghost var before := crc;
      crc := Xor(crc, data[i]);
      for bit := 0 to 8
        invariant crc == Steps(Xor(before, data[i]), bit)
      {
        crc := if crc % 2 == 1 then Xor(crc / 2, POLYNOMIAL) else crc / 2;
      }
      assert data[..i + 1][..i] == data[..i];
    }
    assert data[..|data|] == data;
  }

  // ---- Algebra of exclusive or ----

  /** The lowest bit of a number, and the rest. */
  lemma Split(a: nat) returns (bit: nat, rest: nat)
    ensures a == bit + 2 * rest && bit < 2
    ensures bit == a % 2 && rest == a / 2
  {
    bit, rest := a % 2, a / 2;
  }

  lemma Halves(bit: nat, rest: nat)
    requires bit < 2
    ensures (bit + 2 * rest) % 2 == bit && (bit + 2 * rest) / 2 == rest
  {
  }

  function XorBit(i: nat, j: nat): (r: nat)
    ensures r < 2
  {
    (i + j) % 2
  }

  lemma {:induction false} XorUnfolds(a: nat, b: nat)
    ensures Xor(a, b) == (a + b) % 2 + 2 * Xor(a / 2, b / 2)
  {
  }

  lemma Parity(i: nat, a: nat, j: nat, b: nat)
    ensures (i + 2 * a + (j + 2 * b)) % 2 == XorBit(i, j)
  {
    assert i + 2 * a + (j + 2 * b) == (i + j) + 2 * (a + b);
  }

  lemma {:induction false} XorCons(i: nat, a: nat, j: nat, b: nat)
    requires i < 2 && j < 2
    ensures Xor(i + 2 * a, j + 2 * b) == XorBit(i, j) + 2 * Xor(a, b)
  {
    hide Xor;
    Halves(i, a);
    Halves(j, b);
    Parity(i, a, j, b);
    XorUnfolds(i + 2 * a, j + 2 * b);
  }

  lemma XorNothing()
    ensures Xor(0, 0) == 0
  {
  }

  lemma {:induction false} XorZero(a: nat)
    ensures Xor(a, 0) == a && Xor(0, a) == a
    decreases a
  {
    hide Xor;
    XorNothing();
    if a > 0 {
      var bit, rest := Split(a);
      XorZero(rest);
      XorCons(bit, rest, 0, 0);
      XorCons(0, 0, bit, rest);
    }
  }

  lemma {:induction false} XorAssociates(a: nat, b: nat, c: nat)
    ensures Xor(Xor(a, b), c) == Xor(a, Xor(b, c))
    decreases a + b + c
  {
    hide Xor;
    XorNothing();
    if a + b + c > 0 {
      var i, x := Split(a);
      var j, y := Split(b);
      var k, z := Split(c);
      XorAssociates(x, y, z);
      XorCons(i, x, j, y);
      XorCons(j, y, k, z);
      XorCons(XorBit(i, j), Xor(x, y), k, z);
      XorCons(i, x, XorBit(j, k), Xor(y, z));
      assert XorBit(XorBit(i, j), k) == XorBit(i, XorBit(j, k));
    }
  }

  lemma {:induction false} XorCommutes(a: nat, b: nat)
    ensures Xor(a, b) == Xor(b, a)
    decreases a + b
  {
    hide Xor;
    if a + b > 0 {
      var i, x := Split(a);
      var j, y := Split(b);
      XorCommutes(x, y);
      XorCons(i, x, j, y);
      XorCons(j, y, i, x);
    }
  }

  lemma {:induction false} XorSelf(a: nat)
    ensures Xor(a, a) == 0
    decreases a
  {
    hide Xor;
    XorNothing();
    if a > 0 {
      var bit, rest := Split(a);
      XorSelf(rest);
      XorCons(bit, rest, bit, rest);
    }
  }

  lemma XorCancels(x: nat, y: nat, z: nat)
    ensures Xor(x, z) == Xor(y, z) ==> x == y
    ensures Xor(z, x) == Xor(z, y) ==> x == y
  {
    hide Xor;
    XorUndone(x, z);
    XorUndone(y, z);
  }

  lemma XorUndone(x: nat, z: nat)
    ensures Xor(Xor(x, z), z) == x && Xor(z, Xor(z, x)) == x
  {
    hide Xor;
    XorAssociates(x, z, z);
    XorAssociates(z, z, x);
    XorSelf(z);
    XorZero(x);
  }

  lemma XorSwap(a: nat, b: nat, c: nat)
    ensures Xor(Xor(a, b), c) == Xor(Xor(a, c), b)
  {
    hide Xor;
    XorAssociates(a, b, c);
    XorAssociates(a, c, b);
    XorCommutes(b, c);
  }

  function Pow2(n: nat): (r: nat)
    ensures r > 0
  {
    if n == 0 then 1 else 2 * Pow2(n - 1)
  }

  lemma Pow2Values()
    ensures Pow2(8) == 256 && Pow2(32) == TWO_32
  {
    assert Pow2(4) == 16;
    assert Pow2(8) == 256;
    assert Pow2(12) == 4096;
    assert Pow2(16) == 65536;
    assert Pow2(20) == 1048576;
    assert Pow2(24) == 16777216;
    assert Pow2(28) == 268435456;
  }

  lemma {:induction false} XorBound(a: nat, b: nat, n: nat)
    requires a < Pow2(n) && b < Pow2(n)
    ensures Xor(a, b) < Pow2(n)
    decreases n
  {
    hide Xor;
    XorNothing();
    if n > 0 {
      var i, x := Split(a);
      var j, y := Split(b);
      XorBound(x, y, n - 1);
      XorCons(i, x, j, y);
    }
  }

  /** Disjoint bit ranges: exclusive or is addition. */
  lemma {:induction false} XorDisjoint(low: nat, high: nat, n: nat)
    requires low < Pow2(n)
    ensures Xor(low, Pow2(n) * high) == low + Pow2(n) * high
    decreases n
  {
    hide Xor;
    if n == 0 {
      XorZero(high);
    } else {
      var bit, l := Split(low);
      var rest := Pow2(n - 1) * high;
      DoubleProduct(Pow2(n - 1), high);
      XorDisjoint(l, high, n - 1);
      XorCons(bit, l, 0, rest);
    }
  }

  lemma DoubleProduct(a: nat, b: nat)
    ensures (2 * a) * b == 2 * (a * b) == a * (2 * b)
  {
  }

  /** A set top bit survives exclusive or with a number that does not have it. */
  lemma {:induction false} XorTopBit(a: nat, b: nat, n: nat)
    requires a < Pow2(n) <= b < 2 * Pow2(n)
    ensures Xor(a, b) >= Pow2(n)
    decreases n
  {
    hide Xor;
    if n == 0 {
      XorZero(b);
    } else {
      var i, x := Split(a);
      var j, y := Split(b);
      XorTopBit(x, y, n - 1);
      XorCons(i, x, j, y);
    }
  }

  // ---- The register ----

  predicate Register(c: nat) {
    c < TWO_32
  }

  lemma Pow31()
    ensures Pow2(31) == 0x8000_0000
  {
    Pow2Values();
    assert Pow2(32) == 2 * Pow2(31);
  }

  lemma StepRegister(c: nat)
    requires Register(c)
    ensures Register(Step(c))
  {
    Pow2Values();
    XorBound(c / 2, POLYNOMIAL, 32);
  }

  /** The bit step loses no information: the top bit of the result tells which branch ran. */
  lemma StepInjective(a: nat, b: nat)
    requires Register(a) && Register(b) && Step(a) == Step(b)
    ensures a == b
  {
    hide Xor;
    Pow31();
    XorTopBit(a / 2, POLYNOMIAL, 31);
    XorTopBit(b / 2, POLYNOMIAL, 31);
    XorCancels(a / 2, b / 2, POLYNOMIAL);
  }

  lemma {:induction false} StepsRegister(c: nat, n: nat)
    requires Register(c)
    ensures Register(Steps(c, n))
  {
    if n > 0 {
      StepsRegister(c, n - 1);
      StepRegister(Steps(c, n - 1));
    }
  }

  lemma {:induction false} StepsInjective(a: nat, b: nat, n: nat)
    requires Register(a) && Register(b) && Steps(a, n) == Steps(b, n)
    ensures a == b
  {
    if n > 0 {
      StepsRegister(a, n - 1);
      StepsRegister(b, n - 1);
      StepInjective(Steps(a, n - 1), Steps(b, n - 1));
      StepsInjective(a, b, n - 1);
    }
  }

  lemma {:induction false} StepsAdd(c: nat, m: nat, n: nat)
    ensures Steps(Steps(c, m), n) == Steps(c, m + n)
  {
    if n > 0 {
      StepsAdd(c, m, n - 1);
    }
  }

  /** Bits above the lowest one are only moved down by a step. */
  lemma StepShift(c: nat, y: nat)
    ensures Step(Xor(c, 2 * y)) == Xor(Step(c), y)
  {
    hide Xor;
    var bit, half := Split(c);
    XorCons(bit, half, 0, y);
    StepCons(bit, half);
    StepCons(bit, Xor(half, y));
    XorSwap(half, y, POLYNOMIAL);
  }

  lemma StepCons(bit: nat, rest: nat)
    requires bit < 2
    ensures Step(bit + 2 * rest) == if bit == 1 then Xor(rest, POLYNOMIAL) else rest
  {
    Halves(bit, rest);
  }

  lemma {:induction false} StepsShift(c: nat, y: nat, n: nat)
    ensures Steps(Xor(c, Pow2(n) * y), n) == Xor(Steps(c, n), y)
    decreases n
  {
    if n > 0 {
      DoubleProduct(Pow2(n - 1), y);
      StepsShift(c, 2 * y, n - 1);
      StepShift(Steps(c, n - 1), y);
    }
  }

  lemma EightStepsShift(c: nat, y: nat)
    ensures Steps(Xor(c, 256 * y), 8) == Xor(Steps(c, 8), y)
  {
    Pow2Values();
    StepsShift(c, y, 8);
  }

  lemma {:induction false} FeedConcat(c: nat, a: seq<Byte>, b: seq<Byte>)
    ensures Feed(c, a + b) == Feed(Feed(c, a), b)
  {
    if b == [] {
      assert a + b == a;
    } else {
      var last := |b| - 1;
      FeedConcat(c, a, b[..last]);
      assert (a + b)[..|a + b| - 1] == a + b[..last];
    }
  }

  lemma {:induction false} FeedRegister(c: nat, data: seq<Byte>)
    requires Register(c)
    ensures Register(Feed(c, data))
  {
    if data != [] {
      var last := |data| - 1;
      FeedRegister(c, data[..last]);
      AbsorbRegister(Feed(c, data[..last]), data[last]);
    }
  }

  lemma AbsorbRegister(c: nat, b: Byte)
    requires Register(c)
    ensures Register(Xor(c, b)) && Register(Absorb(c, b))
  {
    hide Xor;
    Pow2Values();
    XorBound(c, b, 32);
    StepsRegister(Xor(c, b), 8);
  }

  lemma {:induction false} FeedInjective(c: nat, d: nat, data: seq<Byte>)
    requires Register(c) && Register(d) && Feed(c, data) == Feed(d, data)
    ensures c == d
  {
    if data != [] {
      var last := |data| - 1;
      var x, y := Feed(c, data[..last]), Feed(d, data[..last]);
      FeedRegister(c, data[..last]);
      FeedRegister(d, data[..last]);
      AbsorbRegister(x, data[last]);
      AbsorbRegister(y, data[last]);
      StepsInjective(Xor(x, data[last]), Xor(y, data[last]), 8);
      XorCancels(x, y, data[last]);
      FeedInjective(c, d, data[..last]);
    }
  }

  lemma CrcRegister(data: seq<Byte>)
    ensures Register(Crc32(data))
  {
    FeedRegister(ALL_ONES, data);
    Pow2Values();
    XorBound(Feed(ALL_ONES, data), ALL_ONES, 32);
  }

  // ---- The table form (section 8 of RFC 1952) ----

  /** `make_crc_table`: entry n is n pushed through eight steps. */
  function TableEntry(n: nat): nat {
    Steps(n, 8)
  }

  /** `update_crc`. */
  function TableUpdate(c: nat, data: seq<Byte>): nat {
    if data == [] then c
    else
      var p := TableUpdate(c, data[..|data| - 1]);
      Xor(TableEntry(Xor(p, data[|data| - 1]) % 256), p / 256)
  }

  /** `crc`, which is also `zlib.crc32`. */
  function TableCrc32(data: seq<Byte>): nat {
    Xor(TableUpdate(ALL_ONES, data), ALL_ONES)
  }

  lemma AbsorbByTable(c: nat, b: Byte)
    ensures Absorb(c, b) == Xor(TableEntry(Xor(c, b) % 256), c / 256)
  {
    hide Xor;
    var low, high := c % 256, c / 256;
    var x := Xor(low, b);
    XorLowByte(low, high, b);
    assert Xor(c, b) % 256 == x by { SplitByte(x, high); }
    assert Absorb(c, b) == Steps(Xor(x, 256 * high), 8);
    EightStepsShift(x, high);
  }

  lemma SplitByte(low: nat, high: nat)
    requires low < 256
    ensures (low + 256 * high) % 256 == low
  {
    hide Xor;
  }

  lemma XorLowByte(low: Byte, high: nat, b: Byte)
    ensures Xor(low, b) < 256
    ensures Xor(low + 256 * high, b) == Xor(low, b) + 256 * high == Xor(Xor(low, b), 256 * high)
  {
    hide Xor;
    var top := 256 * high;
    assert Xor(low, b) < 256 by {
      Pow2Values();
      XorBound(low, b, 8);
    }
    HighBits(low, high);
    HighBits(Xor(low, b), high);
    XorSwap(low, top, b);
  }

  lemma HighBits(low: nat, high: nat)
    requires low < 256
    ensures Xor(low, 256 * high) == low + 256 * high
  {
    hide Xor;
    Pow2Values();
    XorDisjoint(low, high, 8);
  }

  /** The host's table-driven checksum and the firmware's bit loop are the same function. */
  lemma {:induction false} TableAgrees(c: nat, data: seq<Byte>)
    ensures TableUpdate(c, data) == Feed(c, data)
  {
    if data != [] {
      var last := |data| - 1;
      TableAgrees(c, data[..last]);
      AbsorbByTable(Feed(c, data[..last]), data[last]);
    }
  }

  lemma TableCrcAgrees(data: seq<Byte>)
    ensures TableCrc32(data) == Crc32(data)
  {
    TableAgrees(ALL_ONES, data);
  }

  // ---- Error detection ----

  lemma {:induction false} WordStep(c: nat, b: Byte, rest: nat, n: nat)
    ensures Steps(Xor(Absorb(c, b), rest), n) == Steps(Xor(c, b + 256 * rest), 8 + n)
  {
    hide Xor;
    var start := Xor(c, b);
    EightStepsShift(start, rest);
    StepsAdd(Xor(start, 256 * rest), 8, n);
    assert Xor(start, 256 * rest) == Xor(c, b + 256 * rest) by {
      XorAssociates(c, b, 256 * rest);
      HighBits(b, rest);
    }
  }

  /** Absorbing a byte string is xor-ing in its little-endian value and then stepping. */
  lemma {:induction false} FeedAsWord(c: nat, w: seq<Byte>)
    ensures Feed(c, w) == Steps(Xor(c, LeValue(w)), 8 * |w|)
    decreases |w|
  {
    hide Xor;
    if w == [] {
      XorZero(c);
    } else {
      assert w == [w[0]] + w[1..];
      FeedConcat(c, [w[0]], w[1..]);
      FeedOne(c, w[0]);
      FeedAsWord(Absorb(c, w[0]), w[1..]);
      WordStep(c, w[0], LeValue(w[1..]), 8 * (|w| - 1));
    }
  }

  lemma FeedOne(c: nat, b: Byte)
    ensures Feed(c, [b]) == Absorb(c, b)
  {
    assert [b][..0] == [];
  }

  lemma FourBytesInjective(c: nat, w: seq<Byte>, v: seq<Byte>)
    requires Register(c) && |w| == |v| == 4 && Feed(c, w) == Feed(c, v)
    ensures w == v
  {
    hide Xor;
    FeedAsWord(c, w);
    FeedAsWord(c, v);
    PowValues();
    Pow2Values();
    XorBound(c, LeValue(w), 32);
    XorBound(c, LeValue(v), 32);
    StepsInjective(Xor(c, LeValue(w)), Xor(c, LeValue(v)), 32);
    XorCancels(LeValue(w), LeValue(v), c);
    LeInverse(w);
    LeInverse(v);
  }

  /** Any change confined to four consecutive bytes changes the checksum. */
  lemma DetectsFourByteBurst(data: seq<Byte>, other: seq<Byte>, at: nat)
    requires |data| == |other| && at + 4 <= |data|
    requires data[..at] == other[..at] && data[at + 4..] == other[at + 4..]
    requires Crc32(data) == Crc32(other)
    ensures data == other
  {
    var w, v, tail := data[at..at + 4], other[at..at + 4], data[at + 4..];
    assert data == data[..at] + w + tail && other == data[..at] + v + tail;
    XorCancels(Feed(ALL_ONES, data), Feed(ALL_ONES, other), ALL_ONES);
    FeedConcat(ALL_ONES, data[..at] + w, tail);
    FeedConcat(ALL_ONES, data[..at] + v, tail);
    FeedRegister(ALL_ONES, data[..at] + w);
    FeedRegister(ALL_ONES, data[..at] + v);
    FeedInjective(Feed(ALL_ONES, data[..at] + w), Feed(ALL_ONES, data[..at] + v), tail);
    FeedConcat(ALL_ONES, data[..at], w);
    FeedConcat(ALL_ONES, data[..at], v);
    FeedRegister(ALL_ONES, data[..at]);
    FourBytesInjective(Feed(ALL_ONES, data[..at]), w, v);
  }

  // ---- Known values ----

  /** The polynomial, its exponents as IEEE 802.3 lists them, in the reflected bit order. */
  lemma IeeePolynomial()
    ensures POLYNOMIAL == Pow2(31 - 26) + Pow2(31 - 23) + Pow2(31 - 22) + Pow2(31 - 16) + Pow2(31 - 12) + Pow2(31 - 11)
                          + Pow2(31 - 10) + Pow2(31 - 8) + Pow2(31 - 7) + Pow2(31 - 5) + Pow2(31 - 4) + Pow2(31 - 2)
                          + Pow2(31 - 1) + Pow2(31 - 0)
  {
    Pow2Values();
    Pow31();
    assert Pow2(20) == 1048576 && Pow2(24) == 16777216 && Pow2(28) == 268435456;
    assert Pow2(16) == 65536;
  }

  /** Exclusive or goes digit by digit, in any power of two. */
  lemma {:induction false} XorDigits(n: nat, a: nat, i: nat, b: nat, j: nat)
    requires i < Pow2(n) && j < Pow2(n)
    ensures Xor(Pow2(n) * a + i, Pow2(n) * b + j) == Pow2(n) * Xor(a, b) + Xor(i, j)
    decreases n
  {
    hide Xor;
    if n == 0 {
      XorNothing();
    } else {
      var p := Pow2(n - 1);
      var s, x := Split(i);
      var t, y := Split(j);
      DoubleProduct(p, a);
      DoubleProduct(p, b);
      DoubleProduct(p, Xor(a, b));
      XorDigits(n - 1, a, x, b, y);
      XorCons(s, p * a + x, t, p * b + y);
      XorCons(s, x, t, y);
    }
  }

  lemma XorNibble(a: nat, i: nat, b: nat, j: nat)
    requires i < 16 && j < 16
    ensures Xor(16 * a + i, 16 * b + j) == 16 * Xor(a, b) + Xor(i, j)
  {
    assert Pow2(4) == 16;
    XorDigits(4, a, i, b, j);
  }

  /** Entry 1 of the table every implementation of section 8 of RFC 1952 builds. */
  lemma TableEntryOne()
    ensures TableEntry(1) == 0x7707_3096
  {
    hide Xor;
    XorZero(POLYNOMIAL);
    FirstSteps();
    LastXor();
    assert Steps(1, 7) == 0xee0e_612c;
    assert Steps(1, 8) == 0x7707_3096;
  }

  lemma FirstSteps()
    requires Xor(0, POLYNOMIAL) == POLYNOMIAL
    ensures Steps(1, 6) == 0x076d_c419
  {
    hide Xor;
    assert Steps(1, 0) == 1;
    assert Steps(1, 1) == 0xedb8_8320;
    assert Steps(1, 2) == 0x76dc_4190;
    assert Steps(1, 3) == 0x3b6e_20c8;
    assert Steps(1, 4) == 0x1db7_1064;
    assert Steps(1, 5) == 0x0edb_8832;
  }

  lemma LastXor()
    ensures Xor(0x03b6_e20c, 0xedb8_8320) == 0xee0e_612c
  {
    hide Xor;
    Nibbles();
    XorNibble(0, 0, 0, 0xe);
    XorNibble(0x0, 0x3, 0xe, 0xd);
    XorNibble(0x03, 0xb, 0xed, 0xb);
    XorNibble(0x03b, 0x6, 0xedb, 0x8);
    XorNibble(0x03b6, 0xe, 0xedb8, 0x8);
    XorNibble(0x03b6e, 0x2, 0xedb88, 0x3);
    XorNibble(0x03b6e2, 0x0, 0xedb883, 0x2);
    XorNibble(0x03b6e20, 0xc, 0xedb8832, 0x0);
  }

  lemma Nibbles()
    ensures Xor(0, 0xe) == 0xe && Xor(3, 0xd) == 0xe && Xor(0xb, 0xb) == 0 && Xor(6, 8) == 0xe
    ensures Xor(0xe, 8) == 6 && Xor(2, 3) == 1 && Xor(0, 2) == 2 && Xor(0xc, 0) == 0xc && Xor(0, 0) == 0
  {
    XorZero(0xe);
    XorZero(2);
    XorZero(0xc);
    XorSelf(0xb);
    assert Xor(0, 1) == 1 && Xor(1, 0) == 1 && Xor(1, 1) == 0;
    assert Xor(1, 3) == 2 && Xor(1, 2) == 3 && Xor(3, 2) == 1;
    assert Xor(0, 3) == 3 && Xor(1, 6) == 7 && Xor(3, 4) == 7 && Xor(7, 4) == 3;
  }

  lemma {:induction false} StepsOfZero(n: nat)
    ensures Steps(0, n) == 0
  {
    if n > 0 {
      StepsOfZero(n - 1);
    }
  }

  /** The checksum of four bytes 0xff is 0xffffffff, a published check value: it fixes the initial
      register and the final complement. */
  lemma CheckValue()
    ensures Crc32([255, 255, 255, 255]) == 0xffff_ffff
  {
    hide Xor;
    var w: seq<Byte> := [255, 255, 255, 255];
    LittleEndianValue(w);
    FeedAsWord(ALL_ONES, w);
    XorSelf(ALL_ONES);
    StepsOfZero(32);
    XorZero(ALL_ONES);
  }
}

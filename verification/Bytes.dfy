/** Bytes, optional values and the fixed-width integer encodings shared by every wire and
    flash format of the bridge. */
module Bytes {

  /** One octet (`uint8_t`). */
  type Byte = x: int | 0 <= x < 256

  datatype Option<+T> = None | Some(value: T)

  const TWO_32: nat := 0x1_0000_0000
  const TWO_16: nat := 0x1_0000

  /** The number of values that `k` bytes can hold. */
  function Pow256(k: nat): (r: nat)
    ensures r > 0
  {
    if k == 0 then 1 else 256 * Pow256(k - 1)
  }

  /** Little-endian encoding of the low `k` bytes of `n`. */
  function LeBytes(n: nat, k: nat): (s: seq<Byte>)
    ensures |s| == k
  {
    if k == 0 then [] else [n % 256] + LeBytes(n / 256, k - 1)
  }

  /** The number a little-endian byte string stands for. */
  function LeValue(s: seq<Byte>): (n: nat)
    ensures n < Pow256(|s|)
  {
    if s == [] then 0 else s[0] + 256 * LeValue(s[1..])
  }

  /** Big-endian encoding of the low `k` bytes of `n`. */
  function BeBytes(n: nat, k: nat): (s: seq<Byte>)
    ensures |s| == k
  {
    if k == 0 then [] else BeBytes(n / 256, k - 1) + [n % 256]
  }

  /** The number a big-endian byte string stands for. */
  function BeValue(s: seq<Byte>): (n: nat)
    ensures n < Pow256(|s|)
  {
    if s == [] then 0 else 256 * BeValue(s[..|s| - 1]) + s[|s| - 1]
  }

  /** A slice of a slice. */
  lemma SubSlice(s: seq<Byte>, i: nat, j: nat, m: nat, n: nat)
    requires i <= m <= n <= j <= |s|
    ensures s[i..j][m - i..n - i] == s[m..n]
  {
    var t := s[i..j][m - i..n - i];
    assert |t| == n - m;
    assert forall x | 0 <= x < |t| :: t[x] == s[m + x];
  }

  lemma PowValues()
    ensures Pow256(2) == TWO_16 && Pow256(4) == TWO_32 && Pow256(8) == TWO_32 * TWO_32
  {
    assert Pow256(2) == 256 * Pow256(1) && Pow256(3) == 256 * Pow256(2) && Pow256(4) == 256 * Pow256(3);
    assert Pow256(5) == 256 * Pow256(4) && Pow256(6) == 256 * Pow256(5);
    assert Pow256(7) == 256 * Pow256(6) && Pow256(8) == 256 * Pow256(7);
  }

  lemma {:induction false} LeRoundTrip(n: nat, k: nat)
    requires n < Pow256(k)
    ensures LeValue(LeBytes(n, k)) == n
  {
    if k > 0 {
      LeRoundTrip(n / 256, k - 1);
      assert LeBytes(n, k)[1..] == LeBytes(n / 256, k - 1);
    }
  }

  lemma {:induction false} LeInverse(s: seq<Byte>)
    ensures LeBytes(LeValue(s), |s|) == s
  {
    if s != [] {
      LeInverse(s[1..]);
      assert LeValue(s) % 256 == s[0] && LeValue(s) / 256 == LeValue(s[1..]);
    }
  }

  lemma {:induction false} BeRoundTrip(n: nat, k: nat)
    requires n < Pow256(k)
    ensures BeValue(BeBytes(n, k)) == n
  {
    if k > 0 {
      BeRoundTrip(n / 256, k - 1);
      assert BeBytes(n, k)[..k - 1] == BeBytes(n / 256, k - 1);
    }
  }

  lemma {:induction false} BeInverse(s: seq<Byte>)
    ensures BeBytes(BeValue(s), |s|) == s
  {
    if s != [] {
      var last := |s| - 1;
      BeInverse(s[..last]);
      assert BeValue(s) % 256 == s[last] && BeValue(s) / 256 == BeValue(s[..last]);
    }
  }

  /** The two byte orders, spelled out for the widths the formats use. */
  lemma LittleEndian(n: nat)
    ensures LeBytes(n, 2) == [n % 256, n / 256 % 256]
    ensures LeBytes(n, 4) == [n % 256, n / 256 % 256, n / 65536 % 256, n / 16777216 % 256]
  {
    LeTwo(n, 2);
    LeTwo(n, 4);
    LeTwo(n / 65536, 2);
    assert LeBytes(n / 65536 / 65536, 0) == [];
    assert n / 65536 / 256 == n / 16777216;
  }

  lemma LeTwo(n: nat, k: nat)
    requires k >= 2
    ensures LeBytes(n, k) == [n % 256, n / 256 % 256] + LeBytes(n / 65536, k - 2)
  {
    assert LeBytes(n, k) == [n % 256] + LeBytes(n / 256, k - 1);
    assert LeBytes(n / 256, k - 1) == [n / 256 % 256] + LeBytes(n / 256 / 256, k - 2);
  }

  lemma BigEndian(n: nat)
    ensures BeBytes(n, 4) == [n / 16777216 % 256, n / 65536 % 256, n / 256 % 256, n % 256]
  {
    BeTwo(n, 4);
    BeTwo(n / 65536, 2);
    assert BeBytes(n / 65536 / 65536, 0) == [];
    assert n / 65536 / 256 == n / 16777216;
  }

  lemma BeTwo(n: nat, k: nat)
    requires k >= 2
    ensures BeBytes(n, k) == BeBytes(n / 65536, k - 2) + [n / 256 % 256, n % 256]
  {
    assert BeBytes(n, k) == BeBytes(n / 256, k - 1) + [n % 256];
    assert BeBytes(n / 256, k - 1) == BeBytes(n / 256 / 256, k - 2) + [n / 256 % 256];
  }

  lemma LittleEndianValue(s: seq<Byte>)
    ensures |s| == 2 ==> LeValue(s) == s[0] as int + 256 * s[1] as int
    ensures |s| == 4 ==> LeValue(s) == s[0] as int + 256 * s[1] as int + 65536 * s[2] as int + 16777216 * s[3] as int
  {
    if |s| == 2 || |s| == 4 {
      assert s[1..][1..] == s[2..];
      assert LeValue(s[1..]) == s[1] as int + 256 * LeValue(s[2..]);
    }
    if |s| == 4 {
      assert s[2..][1..] == s[3..] && s[3..][1..] == [];
      assert LeValue(s[2..]) == s[2] as int + 256 * LeValue(s[3..]);
      assert LeValue(s[3..]) == s[3] as int + 256 * LeValue([]);
    }
  }

  lemma BigEndianValue(s: seq<Byte>)
    requires |s| == 4
    ensures BeValue(s) == 16777216 * s[0] as int + 65536 * s[1] as int + 256 * s[2] as int + s[3] as int
  {
    assert s[..3][..2] == s[..2] && s[..2][..1] == s[..1] && s[..1][..0] == [];
    assert BeValue(s[..3]) == 256 * BeValue(s[..2]) + s[2] as int;
    assert BeValue(s[..2]) == 256 * BeValue(s[..1]) + s[1] as int;
    assert BeValue(s[..1]) == 256 * BeValue([]) + s[0] as int;
  }
}

/** The radio record as the firmware runs it: validation and checksum loops, and a builder that
    fills a sector buffer in place. */
module RadioConfig {
  import opened Bytes
  import Crc
  import opened RadioRecord

  method AllPrintable(s: seq<Byte>) returns (ok: bool)
    ensures ok == Printable(s)
  {
    for i := 0 to |s|
      invariant Printable(s[..i])
    {
      if s[i] < 32 || s[i] > 126 { return false; }
    }
    return true;
  }

  method AllErased(s: seq<Byte>) returns (ok: bool)
    ensures ok == RadioRecord.Blank(s)
  {
    for i := 0 to |s|
      invariant RadioRecord.Blank(s[..i])
    {
      if s[i] != 255 { return false; }
    }
    return true;
  }

  /** `parse_common`; certificate and key are returned as the slices the original points at. */
  method ParseCommon(s: seq<Byte>, k: Schema) returns (out: Option<Config>)
    requires SchemaOk(k)
    ensures out == RadioRecord.Parse(k, s)
  {
    hide LeValue, Crc.Feed, Crc.Xor;
    if |s| != SECTOR { return None; }
    if s[..8] != k.magic || Le16(s, 8) != k.number { return None; }
    var a, b, c, d := Le16(s, 16), Le16(s, 18), Le16(s, 20), Le16(s, 22);
    if a < 1 || a > 32 || b < k.pskMin || b > 63 { return None; }
    if k.certsMandatory {
      if c < 1 || c > 2048 || d < 1 || d > 1024 { return None; }
    } else {
      if c > 2048 || d > 1024 || ((c == 0) != (d == 0)) { return None; }
    }
    if 24 + a + b + c + d > SECTOR { return None; }
    var total := Le16(s, 10);
    if total != 24 + a + b + c + d || total > SECTOR { return None; }
    var printable := AllPrintable(s[24..24 + a + b]);
    if !printable { return None; }
    var erased := AllErased(s[total..]);
    if !erased { return None; }
    var crc := Crc.Update(Crc.ALL_ONES, s[16..total]);
    if Crc.Xor(crc, Crc.ALL_ONES) != LeValue(s[12..16]) { return None; }
    return Some(Config(s[24..24 + a], s[24 + a..24 + a + b], s[24 + a + b..24 + a + b + c], s[24 + a + b + c..total]));
  }

  /** The buffer holds `done` and is erased after it. */
  ghost predicate Holds(out: array<Byte>, done: seq<Byte>)
    reads out
  {
    out.Length == SECTOR && |done| <= SECTOR && out[..|done|] == done
    && forall j | |done| <= j < SECTOR :: out[j] == 255
  }

  /** Copies the next field into the sector buffer. */
  method Copy(out: array<Byte>, at: nat, data: seq<Byte>, ghost done: seq<Byte>)
    requires Holds(out, done) && at == |done| && at + |data| <= SECTOR
    modifies out
    ensures Holds(out, done + data)
  {
    for i := 0 to |data|
      invariant Holds(out, done + data[..i])
    {
      out[at + i] := data[i];
      assert done + data[..i + 1] == (done + data[..i]) + [data[i]];
    }
    assert data[..|data|] == data;
  }

  /** The builder's checksum runs over the lengths, the name and the key in three passes; they are
      one pass over the concatenation the parser reads. */
  method ThreePassCrc(lens: seq<Byte>, ssid: seq<Byte>, psk: seq<Byte>) returns (crc: nat)
    ensures crc == Crc.Crc32(lens + (ssid + psk))
  {
    crc := Crc.Update(Crc.ALL_ONES, lens);
    crc := Crc.Update(crc, ssid);
    crc := Crc.Update(crc, psk);
    ThreePieces(Crc.ALL_ONES, lens, ssid, psk);
    crc := Crc.Xor(crc, Crc.ALL_ONES);
  }

  lemma ThreePieces(c: nat, x: seq<Byte>, y: seq<Byte>, z: seq<Byte>)
    ensures Crc.Feed(Crc.Feed(Crc.Feed(c, x), y), z) == Crc.Feed(c, x + (y + z))
  {
    Crc.FeedConcat(c, x, y + z);
    Crc.FeedConcat(Crc.Feed(c, x), y, z);
  }

  /** `radio_config_build2`: on refusal the buffer is untouched. */
  method Build(ssid: seq<Byte>, psk: seq<Byte>, out: array<Byte>) returns (ok: bool)
    requires out.Length == SECTOR
    modifies out
    ensures ok == Build2(ssid, psk).Some?
    ensures ok ==> Build2(ssid, psk) == Some(out[..])
    ensures !ok ==> out[..] == old(out[..])
  {
    if |ssid| < 1 || |ssid| > 32 { return false; }
    if |psk| < 8 || |psk| > 63 { return false; }
    var p := AllPrintable(ssid);
    if !p { return false; }
    p := AllPrintable(psk);
    if !p { return false; }
    for i := 0 to SECTOR
      invariant forall j | 0 <= j < i :: out[j] == 255
    {
      out[i] := 255;
    }
    Fields(ssid, psk, out);
    return true;
  }

  lemma WithoutCertificates(ssid: seq<Byte>, psk: seq<Byte>)
    ensures var f := Config(ssid, psk, [], []);
            Payload(f) == LeBytes(|ssid|, 2) + LeBytes(|psk|, 2) + LeBytes(0, 2) + LeBytes(0, 2) + (ssid + psk)
  {
    assert ssid + psk + [] + [] == ssid + psk;
  }

  /** The writes into the erased buffer, in the original's order. */
  method Fields(ssid: seq<Byte>, psk: seq<Byte>, out: array<Byte>)
    requires out.Length == SECTOR && RadioRecord.Blank(out[..])
    requires ConfigOk(SCHEMA_2, Config(ssid, psk, [], []))
    modifies out
    ensures out[..] == Pack(SCHEMA_2, Config(ssid, psk, [], []))
  {
    var total := 24 + |ssid| + |psk|;
    var lens := LeBytes(|ssid|, 2) + LeBytes(|psk|, 2) + LeBytes(0, 2) + LeBytes(0, 2);
    var crc := ThreePassCrc(lens, ssid, psk);
    var header := MAGIC_2 + LeBytes(2, 2) + LeBytes(total, 2) + LeBytes(crc, 4);
    WithoutCertificates(ssid, psk);
    assert header == Header(SCHEMA_2, Payload(Config(ssid, psk, [], [])));
    Place(header, lens, ssid, psk, out);
  }

  method Place(header: seq<Byte>, lens: seq<Byte>, ssid: seq<Byte>, psk: seq<Byte>, out: array<Byte>)
    requires out.Length == SECTOR && RadioRecord.Blank(out[..])
    requires |header| == 16 && |lens| == 8 && 24 + |ssid| + |psk| <= SECTOR
    modifies out
    ensures out[..] == header + (lens + (ssid + psk)) + Fill(SECTOR - (24 + |ssid| + |psk|))
  {
    Copy(out, 0, header, []);
    assert [] + header == header;
    Copy(out, 16, lens, header);
    Copy(out, 24, ssid, header + lens);
    Copy(out, 24 + |ssid|, psk, header + lens + ssid);
    Regroup(header, lens, ssid, psk);
    ghost var total := 24 + |ssid| + |psk|;
    assert out[total..] == Fill(SECTOR - total);
    assert out[..] == out[..total] + out[total..];
  }

  lemma Regroup(a: seq<Byte>, b: seq<Byte>, c: seq<Byte>, d: seq<Byte>)
    ensures a + b + c + d == a + (b + (c + d))
  {
  }
}

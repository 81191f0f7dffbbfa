/** The radio record in flash: what a sector of either schema means, and that packing and parsing
    are two-sided inverses. */
module RadioRecord {
  import opened Bytes
  import opened Crc

  const SECTOR: nat := 4096
  const MAGIC_1: seq<Byte> := [80, 66, 82, 65, 68, 48, 49, 0]  // "PBRAD01\0"
  const MAGIC_2: seq<Byte> := [80, 66, 82, 65, 68, 48, 50, 0]  // "PBRAD02\0"

  datatype Config = Config(ssid: seq<Byte>, psk: seq<Byte>, cert: seq<Byte>, key: seq<Byte>)

  /** What distinguishes the two schemas. */
  datatype Schema = Schema(magic: seq<Byte>, number: nat, pskMin: nat, certsMandatory: bool)

  const SCHEMA_1 := Schema(MAGIC_1, 1, 20, true)
  const SCHEMA_2 := Schema(MAGIC_2, 2, 8, false)

  ghost predicate SchemaOk(k: Schema) {
    |k.magic| == 8 && k.number < TWO_16
  }

  predicate Printable(s: seq<Byte>) {
    forall i | 0 <= i < |s| :: 32 <= s[i] <= 126
  }

  predicate Blank(s: seq<Byte>) {
    forall i | 0 <= i < |s| :: s[i] == 255
  }

  predicate LengthsOk(k: Schema, a: nat, b: nat, c: nat, d: nat) {
    && 1 <= a <= 32 && k.pskMin <= b <= 63
    && if k.certsMandatory then 1 <= c <= 2048 && 1 <= d <= 1024
       else c <= 2048 && d <= 1024 && (c == 0 <==> d == 0)
  }

  predicate ConfigOk(k: Schema, f: Config) {
    && LengthsOk(k, |f.ssid|, |f.psk|, |f.cert|, |f.key|)
    && Printable(f.ssid) && Printable(f.psk)
  }

  // ---- Packing ----

  function Lengths(f: Config): (s: seq<Byte>)
    ensures |s| == 8
  {
    LeBytes(|f.ssid|, 2) + LeBytes(|f.psk|, 2) + LeBytes(|f.cert|, 2) + LeBytes(|f.key|, 2)
  }

  function Payload(f: Config): seq<Byte> {
    Lengths(f) + (f.ssid + f.psk + f.cert + f.key)
  }

  function Header(k: Schema, payload: seq<Byte>): (s: seq<Byte>)
    requires |k.magic| == 8
    ensures |s| == 16
  {
    k.magic + LeBytes(k.number, 2) + LeBytes(16 + |payload|, 2) + LeBytes(Crc32(payload), 4)
  }

  function Fill(n: nat): (s: seq<Byte>)
    ensures |s| == n && Blank(s)
  {
    seq(n, i => 255)
  }

  function Pack(k: Schema, f: Config): seq<Byte>
    requires |k.magic| == 8
  {
    var payload := Payload(f);
    Header(k, payload) + payload + Fill(if |payload| <= SECTOR - 16 then SECTOR - 16 - |payload| else 0)
  }

  /** `radio_config_build2`. */
  function Build2(ssid: seq<Byte>, psk: seq<Byte>): Option<seq<Byte>> {
    var f := Config(ssid, psk, [], []);
    if ConfigOk(SCHEMA_2, f) then Some(Pack(SCHEMA_2, f)) else None
  }

  /** `pack_sector`, whose checksum is the table-driven one; absent when it raises. */
  function PackSector(ssid: seq<Byte>, passphrase: seq<Byte>, cert: seq<Byte>, key: seq<Byte>): Option<seq<Byte>> {
    if !(1 <= |ssid| <= 32 && Printable(ssid)) || !(20 <= |passphrase| <= 63 && Printable(passphrase))
       || !(1 <= |cert| <= 2048) || !(1 <= |key| <= 1024) then None
    else
      var lengths := LeBytes(|ssid|, 2) + LeBytes(|passphrase|, 2) + LeBytes(|cert|, 2) + LeBytes(|key|, 2);
      var payload := lengths + (ssid + passphrase + cert + key);
      var total := 16 + |payload|;
      Some(MAGIC_1 + LeBytes(1, 2) + LeBytes(total, 2) + LeBytes(TableCrc32(payload), 4) + payload + Fill(SECTOR - total))
  }

  // ---- Parsing ----

  function Le16(s: seq<Byte>, at: nat): nat
    requires at + 2 <= |s|
  {
    LeValue(s[at..at + 2])
  }

  /** `parse_common`. */
  function Parse(k: Schema, s: seq<Byte>): Option<Config> {
    if |s| != SECTOR || s[..8] != k.magic || Le16(s, 8) != k.number then None
    else
      var a, b, c, d := Le16(s, 16), Le16(s, 18), Le16(s, 20), Le16(s, 22);
      var total := Le16(s, 10);
      if !LengthsOk(k, a, b, c, d) || total != 24 + a + b + c + d || total > SECTOR then None
      else if !Printable(s[24..24 + a + b]) || !Blank(s[total..]) then None
      else if LeValue(s[12..16]) != Crc32(s[16..total]) then None
      else
        Some(Config(s[24..24 + a], s[24 + a..24 + a + b], s[24 + a + b..24 + a + b + c], s[24 + a + b + c..total]))
  }

  // ---- Inverses ----

  lemma LengthsRead(f: Config)
    requires |f.ssid| < TWO_16 && |f.psk| < TWO_16 && |f.cert| < TWO_16 && |f.key| < TWO_16
    ensures var l := Lengths(f);
            Le16(l, 0) == |f.ssid| && Le16(l, 2) == |f.psk| && Le16(l, 4) == |f.cert| && Le16(l, 6) == |f.key|
  {
    var l := Lengths(f);
    PowValues();
    LeRoundTrip(|f.ssid|, 2);
    LeRoundTrip(|f.psk|, 2);
    LeRoundTrip(|f.cert|, 2);
    LeRoundTrip(|f.key|, 2);
    FourTwos(LeBytes(|f.ssid|, 2), LeBytes(|f.psk|, 2), LeBytes(|f.cert|, 2), LeBytes(|f.key|, 2));
  }

  lemma FourTwos(a: seq<Byte>, b: seq<Byte>, c: seq<Byte>, d: seq<Byte>)
    requires |a| == |b| == |c| == |d| == 2
    ensures var l := a + b + c + d; l[0..2] == a && l[2..4] == b && l[4..6] == c && l[6..8] == d
  {
  }

  lemma HeaderRead(k: Schema, payload: seq<Byte>)
    requires SchemaOk(k) && |payload| < 4096
    ensures var h := Header(k, payload);
            h[..8] == k.magic && Le16(h, 8) == k.number && Le16(h, 10) == 16 + |payload| && LeValue(h[12..16]) == Crc32(payload)
  {
    PowValues();
    CrcRegister(payload);
    LeRoundTrip(k.number, 2);
    LeRoundTrip(16 + |payload|, 2);
    LeRoundTrip(Crc32(payload), 4);
    HeaderSlices(k.magic, LeBytes(k.number, 2), LeBytes(16 + |payload|, 2), LeBytes(Crc32(payload), 4));
  }

  lemma HeaderSlices(m: seq<Byte>, n: seq<Byte>, t: seq<Byte>, c: seq<Byte>)
    requires |m| == 8 && |n| == |t| == 2 && |c| == 4
    ensures var h := m + n + t + c; h[..8] == m && h[8..10] == n && h[10..12] == t && h[12..16] == c
  {
  }

  lemma BodySlices(f: Config)
    ensures var body := f.ssid + f.psk + f.cert + f.key; var a, b, c := |f.ssid|, |f.psk|, |f.cert|;
            && body[..a] == f.ssid && body[a..a + b] == f.psk && body[a + b..a + b + c] == f.cert && body[a + b + c..] == f.key
            && body[..a + b] == f.ssid + f.psk
  {
  }

  lemma HeaderFields(k: Schema, payload: seq<Byte>, s: seq<Byte>)
    requires SchemaOk(k) && 8 <= |payload| < 4096 - 16 && |s| >= 24 && s[..16] == Header(k, payload)
    ensures s[..8] == k.magic && Le16(s, 8) == k.number && Le16(s, 10) == 16 + |payload|
    ensures LeValue(s[12..16]) == Crc32(payload)
  {
    HeaderRead(k, payload);
    assert s[0..16] == s[..16];
    SubSlice(s, 0, 16, 0, 8);
    SubSlice(s, 0, 16, 8, 10);
    SubSlice(s, 0, 16, 10, 12);
    SubSlice(s, 0, 16, 12, 16);
  }

  lemma LengthFields(f: Config, s: seq<Byte>)
    requires |f.ssid| < TWO_16 && |f.psk| < TWO_16 && |f.cert| < TWO_16 && |f.key| < TWO_16
    requires |s| >= 24 && s[16..24] == Lengths(f)
    ensures Le16(s, 16) == |f.ssid| && Le16(s, 18) == |f.psk| && Le16(s, 20) == |f.cert| && Le16(s, 22) == |f.key|
  {
    LengthsRead(f);
    SubSlice(s, 16, 24, 16, 18);
    SubSlice(s, 16, 24, 18, 20);
    SubSlice(s, 16, 24, 20, 22);
    SubSlice(s, 16, 24, 22, 24);
  }

  lemma BodyFields(f: Config, s: seq<Byte>)
    requires var body := f.ssid + f.psk + f.cert + f.key; 24 + |body| <= |s| && s[24..24 + |body|] == body
    ensures var a, b, c, d := |f.ssid|, |f.psk|, |f.cert|, |f.key|;
            && s[24..24 + a] == f.ssid && s[24 + a..24 + a + b] == f.psk && s[24 + a + b..24 + a + b + c] == f.cert
            && s[24 + a + b + c..24 + a + b + c + d] == f.key && s[24..24 + a + b] == f.ssid + f.psk
  {
    var a, b, c := |f.ssid|, |f.psk|, |f.cert|;
    var total := 24 + |f.ssid + f.psk + f.cert + f.key|;
    BodySlices(f);
    SubSlice(s, 24, total, 24, 24 + a);
    SubSlice(s, 24, total, 24 + a, 24 + a + b);
    SubSlice(s, 24, total, 24 + a + b, 24 + a + b + c);
    SubSlice(s, 24, total, 24 + a + b + c, total);
    SubSlice(s, 24, total, 24, 24 + a + b);
  }

  /** What a sector's fields say, field by field. */
  ghost predicate Reads(k: Schema, s: seq<Byte>, f: Config, total: nat) {
    var a, b, c, d := |f.ssid|, |f.psk|, |f.cert|, |f.key|;
    && |s| == SECTOR && s[..8] == k.magic && Le16(s, 8) == k.number
    && Le16(s, 10) == total == 24 + a + b + c + d <= SECTOR
    && Le16(s, 16) == a && Le16(s, 18) == b && Le16(s, 20) == c && Le16(s, 22) == d
    && LeValue(s[12..16]) == Crc32(s[16..total])
    && s[24..24 + a] == f.ssid && s[24 + a..24 + a + b] == f.psk && s[24 + a + b..24 + a + b + c] == f.cert
    && s[24 + a + b + c..total] == f.key
    && Blank(s[total..])
  }

  lemma ReadsIsParse(k: Schema, s: seq<Byte>, f: Config, total: nat)
    requires Reads(k, s, f, total) && ConfigOk(k, f)
    ensures Parse(k, s) == Some(f)
  {
    hide LeValue, Feed, Xor;
    var a, b := |f.ssid|, |f.psk|;
    assert s[24..24 + a + b] == s[24..24 + a] + s[24 + a..24 + a + b];
  }

  lemma ParseIsReads(k: Schema, s: seq<Byte>)
    requires Parse(k, s).Some?
    ensures Reads(k, s, Parse(k, s).value, Le16(s, 10)) && ConfigOk(k, Parse(k, s).value)
  {
    hide LeValue, Feed, Xor;
    PartsPrintable(s, Le16(s, 16), Le16(s, 18));
  }

  lemma SectionsRead(k: Schema, f: Config, s: seq<Byte>)
    requires SchemaOk(k) && ConfigOk(k, f)
    requires var total := 16 + |Payload(f)|;
             |s| == SECTOR && s[..16] == Header(k, Payload(f)) && s[16..total] == Payload(f) && Blank(s[total..])
    ensures Reads(k, s, f, 16 + |Payload(f)|)
  {
    var body := f.ssid + f.psk + f.cert + f.key;
    var total := 24 + |body|;
    assert s[16..24] == s[16..total][..8] == Lengths(f);
    assert s[24..total] == s[16..total][8..] == body;
    HeaderFields(k, Payload(f), s);
    LengthFields(f, s);
    BodyFields(f, s);
  }

  /** Parsing a packed configuration gives that configuration back. */
  lemma ParseInvertsPack(k: Schema, f: Config)
    requires SchemaOk(k) && ConfigOk(k, f)
    ensures Parse(k, Pack(k, f)) == Some(f)
  {
    var payload := Payload(f);
    ThreeSections(Header(k, payload), payload, Fill(SECTOR - 16 - |payload|));
    SectionsRead(k, f, Pack(k, f));
    ReadsIsParse(k, Pack(k, f), f, 16 + |payload|);
  }

  lemma ThreeSections(h: seq<Byte>, payload: seq<Byte>, fill: seq<Byte>)
    requires |h| == 16
    ensures var s := h + payload + fill; var total := 16 + |payload|;
            |s| == total + |fill| && s[..16] == h && s[16..total] == payload && s[total..] == fill
  {
  }

  lemma Le16Inverse(s: seq<Byte>, at: nat)
    requires at + 2 <= |s|
    ensures LeBytes(Le16(s, at), 2) == s[at..at + 2] && Le16(s, at) < TWO_16
  {
    PowValues();
    LeInverse(s[at..at + 2]);
  }

  lemma HeaderWritten(k: Schema, payload: seq<Byte>, s: seq<Byte>)
    requires |k.magic| == 8 && |s| >= 16
    requires s[..8] == k.magic && Le16(s, 8) == k.number && Le16(s, 10) == 16 + |payload| && LeValue(s[12..16]) == Crc32(payload)
    ensures s[..16] == Header(k, payload)
  {
    Le16Inverse(s, 8);
    Le16Inverse(s, 10);
    LeInverse(s[12..16]);
    assert s[..16] == s[..8] + s[8..10] + s[10..12] + s[12..16];
  }

  lemma LengthsWritten(f: Config, s: seq<Byte>)
    requires |s| >= 24
    requires Le16(s, 16) == |f.ssid| && Le16(s, 18) == |f.psk| && Le16(s, 20) == |f.cert| && Le16(s, 22) == |f.key|
    ensures s[16..24] == Lengths(f)
  {
    Le16Inverse(s, 16);
    Le16Inverse(s, 18);
    Le16Inverse(s, 20);
    Le16Inverse(s, 22);
    assert s[16..24] == s[16..18] + s[18..20] + s[20..22] + s[22..24];
  }

  lemma PayloadWritten(f: Config, s: seq<Byte>, total: nat)
    requires var a, b, c, d := |f.ssid|, |f.psk|, |f.cert|, |f.key|;
             && 24 + a + b + c + d == total <= |s|
             && s[24..24 + a] == f.ssid && s[24 + a..24 + a + b] == f.psk && s[24 + a + b..24 + a + b + c] == f.cert
             && s[24 + a + b + c..total] == f.key
             && s[16..24] == Lengths(f)
    ensures s[16..total] == Payload(f)
  {
    var a, b, c := |f.ssid|, |f.psk|, |f.cert|;
    Join(s, 24, 24 + a, 24 + a + b);
    Join(s, 24, 24 + a + b, 24 + a + b + c);
    Join(s, 24, 24 + a + b + c, total);
    Join(s, 16, 24, total);
  }

  lemma Join(s: seq<Byte>, i: nat, j: nat, k: nat)
    requires i <= j <= k <= |s|
    ensures s[i..k] == s[i..j] + s[j..k]
  {
  }

  /** Every sector that parses is, byte for byte, the packing of what it parsed to. */
  lemma PackInvertsParse(k: Schema, s: seq<Byte>)
    requires SchemaOk(k) && Parse(k, s).Some?
    ensures ConfigOk(k, Parse(k, s).value) && Pack(k, Parse(k, s).value) == s
  {
    var f := Parse(k, s).value;
    ParseIsReads(k, s);
    Rebuilt(k, s, f, Le16(s, 10));
  }

  lemma Rebuilt(k: Schema, s: seq<Byte>, f: Config, total: nat)
    requires SchemaOk(k) && Reads(k, s, f, total) && ConfigOk(k, f)
    ensures Pack(k, f) == s
  {
    LengthsWritten(f, s);
    PayloadWritten(f, s, total);
    HeaderWritten(k, Payload(f), s);
    assert s[total..] == Fill(SECTOR - total);
    WholeSector(s, total);
  }

  lemma WholeSector(s: seq<Byte>, total: nat)
    requires 16 <= total <= |s|
    ensures s == s[..16] + s[16..total] + s[total..]
  {
  }

  lemma PartsPrintable(s: seq<Byte>, a: nat, b: nat)
    requires 24 + a + b <= |s| && Printable(s[24..24 + a + b])
    ensures Printable(s[24..24 + a]) && Printable(s[24 + a..24 + a + b])
  {
    assert forall i | 24 <= i < 24 + a + b :: s[i] == s[24..24 + a + b][i - 24];
  }

  // ---- The two schemas ----

  /** `radio_config_parse2` and `radio_config_build2`: each inverts the other, on every input the
      builder accepts and every sector without certificates that the parser accepts. */
  lemma Schema2Bijection(ssid: seq<Byte>, psk: seq<Byte>, s: seq<Byte>)
    ensures Build2(ssid, psk).Some? ==> Parse(SCHEMA_2, Build2(ssid, psk).value) == Some(Config(ssid, psk, [], []))
    ensures Parse(SCHEMA_2, s).Some? && Parse(SCHEMA_2, s).value.cert == [] ==>
              Build2(Parse(SCHEMA_2, s).value.ssid, Parse(SCHEMA_2, s).value.psk) == Some(s)
  {
    if Build2(ssid, psk).Some? {
      ParseInvertsPack(SCHEMA_2, Config(ssid, psk, [], []));
    }
    if Parse(SCHEMA_2, s).Some? && Parse(SCHEMA_2, s).value.cert == [] {
      PackInvertsParse(SCHEMA_2, s);
      var f := Parse(SCHEMA_2, s).value;
      assert f == Config(f.ssid, f.psk, [], []);
    }
  }

  /** The host's encoder is the schema 1 packing, table-driven checksum and all. */
  lemma PackSectorIsSchema1(ssid: seq<Byte>, passphrase: seq<Byte>, cert: seq<Byte>, key: seq<Byte>)
    ensures var f := Config(ssid, passphrase, cert, key);
            PackSector(ssid, passphrase, cert, key) == if ConfigOk(SCHEMA_1, f) then Some(Pack(SCHEMA_1, f)) else None
  {
    hide LeBytes, Feed, Xor, TableUpdate;
    var f := Config(ssid, passphrase, cert, key);
    if ConfigOk(SCHEMA_1, f) {
      TableCrcAgrees(Payload(f));
      var total := 16 + |Payload(f)|;
      assert Pack(SCHEMA_1, f) == Header(SCHEMA_1, Payload(f)) + Payload(f) + Fill(SECTOR - total);
    }
  }

  /** The same for `radio_config_parse` and `pack_sector`. */
  lemma Schema1Bijection(ssid: seq<Byte>, passphrase: seq<Byte>, cert: seq<Byte>, key: seq<Byte>, s: seq<Byte>)
    ensures var packed := PackSector(ssid, passphrase, cert, key);
            packed.Some? ==> Parse(SCHEMA_1, packed.value) == Some(Config(ssid, passphrase, cert, key))
    ensures Parse(SCHEMA_1, s).Some? ==>
              var f := Parse(SCHEMA_1, s).value; PackSector(f.ssid, f.psk, f.cert, f.key) == Some(s)
  {
    PackSectorIsSchema1(ssid, passphrase, cert, key);
    if PackSector(ssid, passphrase, cert, key).Some? {
      ParseInvertsPack(SCHEMA_1, Config(ssid, passphrase, cert, key));
    }
    if Parse(SCHEMA_1, s).Some? {
      PackInvertsParse(SCHEMA_1, s);
      var f := Parse(SCHEMA_1, s).value;
      PackSectorIsSchema1(f.ssid, f.psk, f.cert, f.key);
    }
  }

  /** No sector parses under both schemas. */
  lemma SchemasDisjoint(s: seq<Byte>)
    ensures Parse(SCHEMA_1, s).None? || Parse(SCHEMA_2, s).None?
  {
    assert MAGIC_1[6] != MAGIC_2[6];
  }

  /** A valid sector changed only within four consecutive checksummed bytes no longer parses. */
  lemma BurstRejected(k: Schema, s: seq<Byte>, other: seq<Byte>, at: nat)
    requires Parse(k, s).Some? && |other| == |s| && other != s
    requires 16 <= at && at + 4 <= Le16(s, 10) && s[..at] == other[..at] && s[at + 4..] == other[at + 4..]
    ensures Parse(k, other).None?
  {
    hide LeValue, Feed, Xor;
    var total := Le16(s, 10);
    assert s[10..12] == s[..at][10..12] && other[10..12] == other[..at][10..12];
    assert s[12..16] == s[..at][12..16] && other[12..16] == other[..at][12..16];
    if Parse(k, other).Some? {
      ParseIsReads(k, s);
      ParseIsReads(k, other);
      SameChecksumSame(s, other, at, total);
      assert false;
    }
  }

  lemma SameChecksumSame(s: seq<Byte>, other: seq<Byte>, at: nat, total: nat)
    requires |other| == |s| && 16 <= at && at + 4 <= total <= |s|
    requires s[..at] == other[..at] && s[at + 4..] == other[at + 4..]
    requires Crc32(s[16..total]) == Crc32(other[16..total])
    ensures s == other
  {
    var x, y := s[16..total], other[16..total];
    SubSlice(s, 0, at, 16, at);
    SubSlice(other, 0, at, 16, at);
    assert s[0..at] == s[..at] && other[0..at] == other[..at];
    assert x[..at - 16] == s[16..at] && y[..at - 16] == other[16..at];
    assert x[at - 12..] == s[at + 4..total] == s[at + 4..][..total - at - 4];
    assert y[at - 12..] == other[at + 4..total] == other[at + 4..][..total - at - 4];
    DetectsFourByteBurst(x, y, at - 16);
    Join(s, 0, at, |s|);
    Join(s, at, at + 4, |s|);
    Join(other, 0, at, |s|);
    Join(other, at, at + 4, |s|);
    SubSlice(s, 16, total, at, at + 4);
    SubSlice(other, 16, total, at, at + 4);
    assert s[0..|s|] == s && other[0..|s|] == other;
  }

  // ---- In numbers ----

  function Short(s: seq<Byte>, at: nat): nat
    requires at + 2 <= |s|
  {
    s[at] as int + 256 * s[at + 1] as int
  }

  predicate Between(s: seq<Byte>, low: nat, high: nat) {
    low <= |s| <= high
  }

  predicate Ascii(s: seq<Byte>) {
    forall i | 0 <= i < |s| :: 32 <= s[i] <= 126
  }

  lemma ShortIs(s: seq<Byte>, at: nat)
    requires at + 2 <= |s|
    ensures Le16(s, at) == Short(s, at)
  {
    LittleEndianValue(s[at..at + 2]);
  }

  /** Which sectors parse: schema 1 is "PBRAD01" with mandatory certificate and key and at least 20
      characters of passphrase, schema 2 is "PBRAD02" with at least 8 and both or neither. */
  lemma ParseRule(second: bool, s: seq<Byte>)
    ensures Parse(if second then SCHEMA_2 else SCHEMA_1, s).Some? <==>
              && |s| == 4096
              && s[..10] == [80, 66, 82, 65, 68, 48, if second then 50 else 49, 0, if second then 2 else 1, 0]
              && var a, b, c, d := Short(s, 16), Short(s, 18), Short(s, 20), Short(s, 22);
                 && 1 <= a <= 32 && (if second then 8 else 20) <= b <= 63 && c <= 2048 && d <= 1024
                 && (if second then c == 0 <==> d == 0 else c >= 1 && d >= 1)
                 && Short(s, 10) == 24 + a + b + c + d
                 && Ascii(s[24..24 + a + b])
                 && (forall i | 24 + a + b + c + d <= i < 4096 :: s[i] == 255)
                 && LeValue(s[12..16]) == Crc32(s[16..24 + a + b + c + d])
  {
    hide LeValue, Crc32;
    if |s| == 4096 {
      ShortIs(s, 8);
      ShortIs(s, 10);
      ShortIs(s, 16);
      ShortIs(s, 18);
      ShortIs(s, 20);
      ShortIs(s, 22);
      MagicIs(second, s);
      var total := Le16(s, 10);
      if total <= 4096 {
        assert Blank(s[total..]) <==> forall i | total <= i < 4096 :: s[i] == 255 by {
          if Blank(s[total..]) {
            forall i | total <= i < 4096
              ensures s[i] == 255
            {
              assert s[total..][i - total] == s[i];
            }
          }
        }
      }
    }
  }

  lemma MagicIs(second: bool, s: seq<Byte>)
    requires |s| == 4096
    ensures s[..10] == [80, 66, 82, 65, 68, 48, if second then 50 else 49, 0, if second then 2 else 1, 0] <==>
              s[..8] == (if second then MAGIC_2 else MAGIC_1) && Short(s, 8) == if second then 2 else 1
  {
    assert s[..10] == s[..8] + [s[8], s[9]];
  }

  /** What the builder accepts, and the bytes it writes. */
  lemma Build2Bytes(ssid: seq<Byte>, psk: seq<Byte>)
    ensures Build2(ssid, psk).Some? <==> Between(ssid, 1, 32) && Between(psk, 8, 63) && Ascii(ssid) && Ascii(psk)
    ensures Build2(ssid, psk).Some? ==>
              var s := Build2(ssid, psk).value; var a, b := |ssid|, |psk|;
              && |s| == 4096 && s[..10] == [80, 66, 82, 65, 68, 48, 50, 0, 2, 0]
              && Short(s, 10) == 24 + a + b && Short(s, 16) == a && Short(s, 18) == b && s[20..24] == [0, 0, 0, 0]
              && s[24..24 + a] == ssid && s[24 + a..24 + a + b] == psk
              && LeValue(s[12..16]) == Crc32(s[16..24 + a + b])
              && forall i | 24 + a + b <= i < 4096 :: s[i] == 255
  {
    hide LeValue, Crc32, Pack;
    if Build2(ssid, psk).Some? {
      Schema2Bijection(ssid, psk, []);
      var s := Build2(ssid, psk).value;
      ParseIsReads(SCHEMA_2, s);
      ParseRule(true, s);
      ShortIs(s, 16);
      ShortIs(s, 18);
      ShortIs(s, 20);
      ShortIs(s, 22);
    }
  }
}

/** Command packets: the host's builders and what the firmware reads out of the bytes. */
module Packets {
  import opened Bytes
  import opened Keymap
  import opened Compiler
  import opened CoreSpec

  const CMD_STAGE: Byte := 1
  const CMD_CONFIRM: Byte := 2
  const CMD_CANCEL: Byte := 3
  const CMD_TICK: Byte := 4
  const CMD_ADD: Byte := 7
  const CMD_REVOKE: Byte := 8

  // ---- The host's builders ----

  predicate Word(n: nat) {
    n < TWO_32
  }

  /** `build_stage_packet`; absent when packing a number raises. */
  function StagePacket(job: Entry, layout: nat, mode: nat, flags: nat, payload: seq<Byte>): Option<seq<Byte>> {
    if !Word(job.owner) || !Word(job.id) || layout > 255 || mode > 255 || flags > 255 || |payload| >= TWO_16 then None
    else
      Some([CMD_STAGE] + LeBytes(job.owner, 4) + LeBytes(job.id, 4) + [layout, mode, flags]
           + LeBytes(|payload|, 2) + payload)
  }

  /** `build_confirm_packet` and `build_cancel_packet`. */
  function JobPacket(command: Byte, job: Entry): Option<seq<Byte>> {
    if !Word(job.owner) || !Word(job.id) then None
    else Some([command] + LeBytes(job.owner, 4) + LeBytes(job.id, 4))
  }

  method BuildStagePacket(job: Entry, layout: nat, mode: nat, flags: nat, payload: seq<Byte>)
    returns (packet: Option<seq<Byte>>)
    ensures packet == StagePacket(job, layout, mode, flags, payload)
  {
    var bytes: seq<Byte> := [CMD_STAGE];
    if !Word(job.owner) { return None; }
    bytes := bytes + LeBytes(job.owner, 4);
    if !Word(job.id) { return None; }
    bytes := bytes + LeBytes(job.id, 4);
    if layout > 255 { return None; }
    bytes := bytes + [layout];
    if mode > 255 { return None; }
    bytes := bytes + [mode];
    if flags > 255 { return None; }
    ghost var head := [CMD_STAGE] + LeBytes(job.owner, 4) + LeBytes(job.id, 4);
    assert bytes + [flags] == head + [layout, mode, flags];
    bytes := bytes + [flags];
    if |payload| >= TWO_16 { return None; }
    bytes := bytes + LeBytes(|payload|, 2);
    bytes := bytes + payload;
    return Some(bytes);
  }

  method BuildJobPacket(command: Byte, job: Entry) returns (packet: Option<seq<Byte>>)
    ensures packet == JobPacket(command, job)
  {
    var bytes: seq<Byte> := [command];
    if !Word(job.owner) { return None; }
    bytes := bytes + LeBytes(job.owner, 4);
    if !Word(job.id) { return None; }
    bytes := bytes + LeBytes(job.id, 4);
    return Some(bytes);
  }

  // ---- The firmware's reading ----

  function Layout(b: Byte): nat {
    if b == 2 then LAYOUT_DE else LAYOUT_US
  }

  function Mode(b: Byte): nat {
    if b == 2 then MODE_TEXT else MODE_PASSWORD
  }

  /** `ble_handle_stage`: the request it passes to the core, or absent when it refuses the packet.
      The length comparison is made on 16 bits. */
  function StageRequest(p: seq<Byte>, now: nat): Option<Request> {
    if |p| < 14 then None
    else
      var ulen := LeValue(p[12..14]);
      if |p| < (14 + ulen) % TWO_16 then None
      else
        Some(Request(Entry(LeValue(p[1..5]), LeValue(p[5..9])), Policy(Layout(p[9]), Mode(p[10]), p[11]),
                     Some(p[14..]), ulen, now, MAX_TTL))
  }

  /** The job a confirm or cancel packet names. */
  function JobOf(p: seq<Byte>): Option<Entry> {
    if |p| < 9 then None else Some(Entry(LeValue(p[1..5]), LeValue(p[5..9])))
  }

  /** Although the 16-bit comparison can wrap, the core never reads past the packet: a request that
      gets through either fits, or claims more bytes than the core's limit. */
  lemma StageNeverOverreads(p: seq<Byte>, now: nat)
    requires |p| < TWO_16
    ensures StageRequest(p, now).Some? ==> StageRequest(p, now).value.Readable()
  {
    PowValues();
  }

  /** The wrap does happen: a 14-byte packet claiming 65522 bytes passes the comparison, and the
      core refuses it unread. */
  lemma WrappedClaimIsRefused(p: seq<Byte>, c: Core, now: nat)
    requires |p| == 14 && p[12] == 0xf2 && p[13] == 0xff
    ensures StageRequest(p, now).Some? && StageRequest(p, now).value.Readable()
    ensures !c.Busy() ==> Stage(c, StageRequest(p, now).value) == (Terminated(c, Rejected), ErrLimit)
  {
    var l := p[12..14];
    assert LeValue(l) == 0xfff2 by {
      assert l[1..][1..] == [];
      assert LeValue(l[1..]) == l[1] + 256 * LeValue(l[1..][1..]);
    }
  }

  /** Reading a built stage packet recovers everything the host put in, for every payload. */
  lemma StageCodec(job: Entry, layout: nat, mode: nat, flags: nat, payload: seq<Byte>, now: nat)
    requires StagePacket(job, layout, mode, flags, payload).Some?
    ensures StageRequest(StagePacket(job, layout, mode, flags, payload).value, now) ==
              Some(Request(job, Policy(Layout(layout), Mode(mode), flags), Some(payload), |payload|, now, MAX_TTL))
    ensures layout in {LAYOUT_US, LAYOUT_DE} ==> Layout(layout) == layout
    ensures mode in {MODE_PASSWORD, MODE_TEXT} ==> Mode(mode) == mode
  {
    PowValues();
    var o, i, l: seq<Byte> := LeBytes(job.owner, 4), LeBytes(job.id, 4), LeBytes(|payload|, 2);
    LeRoundTrip(job.owner, 4);
    LeRoundTrip(job.id, 4);
    LeRoundTrip(|payload|, 2);
    StageSlices(o, i, [layout, mode, flags], l, payload);
    WrapBelow(|payload|);
  }

  lemma WrapBelow(n: nat)
    ensures (14 + n) % TWO_16 <= 14 + n
  {
  }

  lemma StageSlices(o: seq<Byte>, i: seq<Byte>, m: seq<Byte>, l: seq<Byte>, payload: seq<Byte>)
    requires |o| == |i| == 4 && |m| == 3 && |l| == 2
    ensures var p := [CMD_STAGE] + o + i + m + l + payload;
            && |p| == 14 + |payload| && p[1..5] == o && p[5..9] == i
            && p[9] == m[0] && p[10] == m[1] && p[11] == m[2] && p[12..14] == l && p[14..] == payload
  {
  }

  /** Reading a built confirm or cancel packet recovers the job. */
  lemma JobCodec(command: Byte, job: Entry)
    requires JobPacket(command, job).Some?
    ensures JobOf(JobPacket(command, job).value) == Some(job)
  {
    PowValues();
    LeRoundTrip(job.owner, 4);
    LeRoundTrip(job.id, 4);
    var p := JobPacket(command, job).value;
    assert p[1..5] == LeBytes(job.owner, 4) && p[5..9] == LeBytes(job.id, 4);
  }

  // ---- The bytes of a packet ----

  /** A stage packet, byte by byte: command 1, owner and id in four little-endian bytes each, layout,
      mode, flags, the text's length in two, and the text. */
  lemma StageBytes(job: Entry, layout: nat, mode: nat, flags: nat, payload: seq<Byte>)
    requires StagePacket(job, layout, mode, flags, payload).Some?
    ensures var p := StagePacket(job, layout, mode, flags, payload).value; var o, i, n := job.owner, job.id, |payload|;
            && p[..1] == [1]
            && p[1..5] == [o % 256, o / 256 % 256, o / 65536 % 256, o / 16777216 % 256]
            && p[5..9] == [i % 256, i / 256 % 256, i / 65536 % 256, i / 16777216 % 256]
            && p[9..12] == [layout, mode, flags] && p[12..14] == [n % 256, n / 256 % 256] && p[14..] == payload
  {
    hide LeBytes;
    LittleEndian(job.owner);
    LittleEndian(job.id);
    LittleEndian(|payload|);
    StageSlices(LeBytes(job.owner, 4), LeBytes(job.id, 4), [layout, mode, flags], LeBytes(|payload|, 2), payload);
  }

  /** Packing succeeds exactly when every number fits its field. */
  lemma StagePacksIff(job: Entry, layout: nat, mode: nat, flags: nat, payload: seq<Byte>)
    ensures StagePacket(job, layout, mode, flags, payload).Some? <==>
              && job.owner <= 0xffff_ffff && job.id <= 0xffff_ffff
              && layout <= 255 && mode <= 255 && flags <= 255 && |payload| <= 0xffff
  {
  }

  lemma JobBytes(command: Byte, job: Entry)
    ensures JobPacket(command, job).Some? <==> job.owner <= 0xffff_ffff && job.id <= 0xffff_ffff
    ensures JobPacket(command, job).Some? ==>
              var p := JobPacket(command, job).value; var o, i := job.owner, job.id;
              && |p| == 9 && p[0] == command
              && p[1..5] == [o % 256, o / 256 % 256, o / 65536 % 256, o / 16777216 % 256]
              && p[5..9] == [i % 256, i / 256 % 256, i / 65536 % 256, i / 16777216 % 256]
  {
    LittleEndian(job.owner);
    LittleEndian(job.id);
    if JobPacket(command, job).Some? {
      var p := JobPacket(command, job).value;
      assert p[1..5] == LeBytes(job.owner, 4) && p[5..9] == LeBytes(job.id, 4);
    }
  }

  function Word32(p: seq<Byte>, at: nat): nat
    requires at + 4 <= |p|
  {
    p[at] as int + 256 * p[at + 1] as int + 65536 * p[at + 2] as int + 16777216 * p[at + 3] as int
  }

  /** What the device reads in any stage packet, and which packets it refuses unread. */
  lemma StageRead(p: seq<Byte>, now: nat)
    ensures |p| < 14 ==> StageRequest(p, now) == None
    ensures |p| >= 14 ==>
              var n: int := p[12] as int + 256 * p[13] as int;
              StageRequest(p, now) ==
                if |p| < (14 + n) % 0x1_0000 then None
                else
                  Some(Request(Entry(Word32(p, 1), Word32(p, 5)),
                               Policy(if p[9] == 2 then 2 else 1, if p[10] == 2 then 2 else 1, p[11]),
                               Some(p[14..]), n, now, 15000))
  {
    hide LeValue;
    if |p| >= 14 {
      LittleEndianValue(p[12..14]);
      LittleEndianValue(p[1..5]);
      LittleEndianValue(p[5..9]);
    }
  }

  lemma JobRead(p: seq<Byte>)
    ensures JobOf(p) == if |p| < 9 then None else Some(Entry(Word32(p, 1), Word32(p, 5)))
  {
    hide LeValue;
    if |p| >= 9 {
      LittleEndianValue(p[1..5]);
      LittleEndianValue(p[5..9]);
    }
  }
}

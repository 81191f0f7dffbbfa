/** The BLE fragment protocol: the host cuts a packet into 20-byte writes, the firmware puts them
    back together in a fixed buffer. */
module BleFraming {
  import opened Bytes

  const CHUNK: nat := 19
  const BUFFER: nat := 1102

  // ---- The firmware's reassembler ----

  /** The packet under construction; an idle reassembler holds nothing. */
  datatype Reassembly = Reassembly(active: bool, data: seq<Byte>)

  const IDLE := Reassembly(false, [])

  ghost predicate Legal(r: Reassembly) {
    |r.data| <= BUFFER && (!r.active ==> r == IDLE)
  }

  /** `cmd_write_callback`: one characteristic write, and the packet it completes, if any. */
  function Accept(r: Reassembly, write: seq<Byte>): (Reassembly, Option<seq<Byte>>) {
    if write == [] then (r, None)
    else
      var more := write[0] % 2 == 1;
      var number := write[0] / 2;
      var data := write[1..];
      if number == 0 && data == [] then (IDLE, None)
      else if number != 0 && !r.active then (r, None)
      else
        var all := if number == 0 then data else r.data + data;
        if |all| > BUFFER then (IDLE, None)
        else if more then (Reassembly(true, all), None)
        else (IDLE, Some(all))
  }

  class Reassembler {
    const buf: array<Byte>
    var pos: nat
    var active: bool

    ghost predicate Valid()
      reads this
    {
      buf.Length == BUFFER && pos <= BUFFER && (!active ==> pos == 0)
    }

    ghost function View(): Reassembly
      requires Valid()
      reads this, buf
    {
      Reassembly(active, buf[..pos])
    }

    constructor ()
      ensures Valid() && fresh(buf) && View() == IDLE
    {
      buf := new Byte[1102];
      pos, active := 0, false;
    }

    method Write(buffer: seq<Byte>) returns (delivered: Option<seq<Byte>>)
      requires Valid()
      modifies this, buf
      ensures Valid()
      ensures (View(), delivered) == Accept(old(View()), buffer)
    {
      delivered := None;
      if |buffer| < 1 { return; }
      var more := buffer[0] % 2 == 1;
      var number := buffer[0] / 2;
      var data := buffer[1..];
      if number == 0 {
        if |data| < 1 {
          active, pos := false, 0;
          return;
        }
        active, pos := true, 0;
        assert buf[..pos] == [] && [] + data == data;
      } else if !active {
        return;
      }
      if pos + |data| > BUFFER {
        active, pos := false, 0;
        return;
      }
      Append(data);
      if !more {
        delivered := Some(buf[..pos]);
        active, pos := false, 0;
      }
    }

    method Append(data: seq<Byte>)
      requires Valid() && active && pos + |data| <= BUFFER
      modifies this`pos, buf
      ensures Valid()
      ensures View() == Reassembly(true, old(View()).data + data)
    {
      ghost var before := buf[..pos];
      for i := 0 to |data|
        invariant pos == old(pos) && active
        invariant buf[..pos + i] == before + data[..i]
      {
        buf[pos + i] := data[i];
        assert data[..i + 1] == data[..i] + [data[i]];
      }
      assert data[..|data|] == data;
      pos := pos + |data|;
    }
  }

  // ---- The host's fragmenter ----

  function Min(a: nat, b: nat): nat {
    if a < b then a else b
  }

  /** The write that carries `packet` from `offset` on under number `number`. */
  function Fragment(packet: seq<Byte>, offset: nat, number: nat): seq<Byte>
    requires offset < |packet| && number < 128
  {
    var n := Min(CHUNK, |packet| - offset);
    [2 * number + (if offset + n < |packet| then 1 else 0)] + packet[offset..offset + n]
  }

  /** The rest of `fragment_packet` from `offset`; absent when a header no longer fits a byte. */
  function FragmentsFrom(packet: seq<Byte>, offset: nat, number: nat): Option<seq<seq<Byte>>>
    requires offset <= |packet|
    decreases |packet| - offset
  {
    if offset == |packet| then Some([])
    else if number >= 128 then None
    else
      match FragmentsFrom(packet, Min(offset + CHUNK, |packet|), number + 1)
      case None => None
      case Some(rest) => Some([Fragment(packet, offset, number)] + rest)
  }

  function Prepend(done: seq<seq<Byte>>, rest: Option<seq<seq<Byte>>>): Option<seq<seq<Byte>>> {
    match rest
    case None => None
    case Some(r) => Some(done + r)
  }

  lemma PrependNothing(rest: Option<seq<seq<Byte>>>)
    ensures Prepend([], rest) == rest
  {
    if rest.Some? {
      assert [] + rest.value == rest.value;
    }
  }

  /** `fragment_packet`. */
  method FragmentPacket(packet: seq<Byte>) returns (fragments: Option<seq<seq<Byte>>>)
    ensures fragments == FragmentsFrom(packet, 0, 0)
  {
    var done: seq<seq<Byte>> := [];
    var offset, number: nat := 0, 0;
    PrependNothing(FragmentsFrom(packet, 0, 0));
    while offset < |packet|
      invariant offset <= |packet|
      invariant FragmentsFrom(packet, 0, 0) == Prepend(done, FragmentsFrom(packet, offset, number))
    {
      var n := Min(CHUNK, |packet| - offset);
      var more := offset + n < |packet|;
      var header: nat := 2 * number + (if more then 1 else 0);
      if header > 255 { return None; }
      ghost var rest := FragmentsFrom(packet, offset + n, number + 1);
      ghost var f: seq<Byte> := Fragment(packet, offset, number);
      assert rest.Some? ==> done + ([f] + rest.value) == (done + [f]) + rest.value;
      done := done + [[header] + packet[offset..offset + n]];
      offset, number := offset + n, number + 1;
    }
    assert done + [] == done;
    return Some(done);
  }

  // ---- Round trip ----

  /** A run of writes, and every packet it delivers. */
  function AcceptAll(r: Reassembly, writes: seq<seq<Byte>>): (Reassembly, seq<seq<Byte>>)
    decreases |writes|
  {
    if writes == [] then (r, [])
    else
      var (r', delivered) := Accept(r, writes[0]);
      var (last, rest) := AcceptAll(r', writes[1..]);
      (last, if delivered.Some? then [delivered.value] + rest else rest)
  }

  /** Where a fragmentation stands: idle before the first fragment or after giving up, or holding
      exactly what has been sent. */
  ghost predicate Midway(r: Reassembly, packet: seq<Byte>, offset: nat)
    requires offset <= |packet|
  {
    r == Reassembly(true, packet[..offset]) && offset <= BUFFER
  }

  lemma AcceptFragment(r: Reassembly, packet: seq<Byte>, offset: nat, number: nat)
    requires offset < |packet| && number < 128
    requires if number == 0 then offset == 0 else Midway(r, packet, offset)
    ensures var end := Min(offset + CHUNK, |packet|);
            Accept(r, Fragment(packet, offset, number)) ==
              if end > BUFFER then (IDLE, None)
              else if end < |packet| then (Reassembly(true, packet[..end]), None)
              else (IDLE, Some(packet))
  {
    var end := Min(offset + CHUNK, |packet|);
    var f := Fragment(packet, offset, number);
    assert f[1..] == packet[offset..end];
    assert f[0] / 2 == number && (f[0] % 2 == 1 <==> end < |packet|);
    assert packet[..offset] + packet[offset..end] == packet[..end];
    assert packet[..|packet|] == packet;
  }

  /** Once idle, the remaining fragments of a packet are ignored. */
  lemma {:induction false} TailIgnored(packet: seq<Byte>, offset: nat, number: nat)
    requires offset <= |packet| && number > 0 && FragmentsFrom(packet, offset, number).Some?
    ensures AcceptAll(IDLE, FragmentsFrom(packet, offset, number).value) == (IDLE, [])
    decreases |packet| - offset
  {
    if offset < |packet| {
      var f := Fragment(packet, offset, number);
      assert f[0] / 2 == number;
      TailIgnored(packet, Min(offset + CHUNK, |packet|), number + 1);
      var all := FragmentsFrom(packet, offset, number).value;
      assert all[0] == f && all[1..] == FragmentsFrom(packet, Min(offset + CHUNK, |packet|), number + 1).value;
      assert Accept(IDLE, f) == (IDLE, None);
    }
  }

  lemma {:induction false} RoundTripFrom(r: Reassembly, packet: seq<Byte>, offset: nat, number: nat)
    requires offset < |packet| && FragmentsFrom(packet, offset, number).Some?
    requires if number == 0 then offset == 0 else Midway(r, packet, offset)
    ensures AcceptAll(r, FragmentsFrom(packet, offset, number).value) == (IDLE, if |packet| <= BUFFER then [packet] else [])
    decreases |packet| - offset
  {
    var end := Min(offset + CHUNK, |packet|);
    var all := FragmentsFrom(packet, offset, number).value;
    var rest := FragmentsFrom(packet, end, number + 1).value;
    assert all[0] == Fragment(packet, offset, number) && all[1..] == rest;
    AcceptFragment(r, packet, offset, number);
    if end > BUFFER {
      TailIgnored(packet, end, number + 1);
    } else if end < |packet| {
      RoundTripFrom(Reassembly(true, packet[..end]), packet, end, number + 1);
    } else {
      assert rest == [];
      assert AcceptAll(IDLE, rest) == (IDLE, []);
      assert [packet] + [] == [packet];
    }
  }

  /** Fragmenting succeeds exactly up to 128 fragments, 2432 bytes. */
  lemma {:induction false} FragmentsExist(packet: seq<Byte>, offset: nat, number: nat)
    requires offset <= |packet| && number <= 128
    ensures FragmentsFrom(packet, offset, number).Some? <==> |packet| - offset <= CHUNK * (128 - number)
    decreases |packet| - offset
  {
    if offset < |packet| && number < 128 {
      FragmentsExist(packet, Min(offset + CHUNK, |packet|), number + 1);
    }
  }

  /** Fragment round trip: from any state of the reassembler, the fragments of a packet of 1 to 1102
      bytes deliver exactly that packet, once; those of a longer packet deliver nothing; both end
      idle. Longer than 2432 bytes, there are no fragments. */
  lemma FragmentRoundTrip(r: Reassembly, packet: seq<Byte>)
    requires packet != []
    ensures FragmentsFrom(packet, 0, 0).Some? <==> |packet| <= 2432
    ensures |packet| <= 2432 ==>
              AcceptAll(r, FragmentsFrom(packet, 0, 0).value) == (IDLE, if |packet| <= 1102 then [packet] else [])
  {
    FragmentsExist(packet, 0, 0);
    if |packet| <= 2432 {
      RoundTripFrom(r, packet, 0, 0);
    }
  }

  /** Arbitrary writes keep the reassembler within its buffer, and what they deliver fits it. */
  lemma {:induction false} AnyWritesStayInBounds(r: Reassembly, writes: seq<seq<Byte>>)
    requires Legal(r)
    ensures Legal(AcceptAll(r, writes).0)
    ensures forall p <- AcceptAll(r, writes).1 :: |p| <= BUFFER
    decreases |writes|
  {
    if writes != [] {
      AnyWritesStayInBounds(Accept(r, writes[0]).0, writes[1..]);
    }
  }

  // ---- The bytes of a fragment ----

  /** Fragment k of a packet carries its bytes 19k to 19k + 18, behind a byte that holds k in its upper
      seven bits and in its lowest whether more follows. */
  lemma FragmentBytes(packet: seq<Byte>, k: nat)
    requires FragmentsFrom(packet, 0, 0).Some? && k < |FragmentsFrom(packet, 0, 0).value|
    ensures var f := FragmentsFrom(packet, 0, 0).value[k]; var end := if 19 * k + 19 < |packet| then 19 * k + 19 else |packet|;
            19 * k < |packet| && f == [2 * k + (if end < |packet| then 1 else 0)] + packet[19 * k..end]
  {
    FragmentBytesFrom(packet, 0, k);
  }

  lemma {:induction false} FragmentBytesFrom(packet: seq<Byte>, number: nat, k: nat)
    requires 19 * number < |packet| || (packet == [] && number == 0)
    requires FragmentsFrom(packet, 19 * number, number).Some? && k < |FragmentsFrom(packet, 19 * number, number).value|
    ensures var f := FragmentsFrom(packet, 19 * number, number).value[k]; var at := 19 * (number + k);
            var end := if at + 19 < |packet| then at + 19 else |packet|;
            at < |packet| && f == [2 * (number + k) + (if end < |packet| then 1 else 0)] + packet[at..end]
    decreases k
  {
    if k > 0 {
      FragmentBytesFrom(packet, number + 1, k - 1);
    }
  }

  /** What one write does, by its first byte. */
  lemma WriteRule(r: Reassembly, write: seq<Byte>)
    requires Legal(r) && write != []
    ensures var first, last := write[0] < 2, write[0] % 2 == 0;
            var all := if first then write[1..] else r.data + write[1..];
            Accept(r, write) ==
              if first && |write| == 1 then (IDLE, None)
              else if !first && !r.active then (r, None)
              else if |all| > 1102 then (IDLE, None)
              else if last then (IDLE, Some(all))
              else (Reassembly(true, all), None)
  {
  }
}

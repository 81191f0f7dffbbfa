/** The host's end of the TCP framing, over a socket that hands out bytes in chunks of its own
    choosing. */
module TcpPeer {
  import opened Bytes
  import opened TcpFraming

  class Socket {
    /** Bytes the peer has sent and this end has not read; nothing follows them. */
    var incoming: seq<Byte>
    var outgoing: seq<Byte>

    /** `recv(limit)`: between one and `limit` bytes, or none at the end of the stream. */
    method Recv(limit: nat) returns (chunk: seq<Byte>)
      requires limit > 0
      modifies this`incoming
      ensures old(incoming) == chunk + incoming && |chunk| <= limit
      ensures chunk == [] ==> old(incoming) == []
    {
      if incoming == [] { return []; }
      var k: int := *;
      if k < 1 { k := 1; }
      if k > limit { k := limit; }
      if k > |incoming| { k := |incoming|; }
      chunk := incoming[..k];
      incoming := incoming[k..];
    }

    /** `_send_frame`; the length must fit four bytes. */
    method SendFrame(payload: seq<Byte>) returns (ok: bool)
      modifies this`outgoing
      ensures ok == (|payload| < TWO_32)
      ensures outgoing == if ok then old(outgoing) + Frame(payload) else old(outgoing)
    {
      if |payload| >= TWO_32 { return false; }
      outgoing := outgoing + (BeBytes(|payload|, 4) + payload);
      return true;
    }

    /** `_recv_exact`. */
    method RecvExact(n: nat) returns (ok: bool, data: seq<Byte>)
      modifies this`incoming
      ensures ok == (n <= |old(incoming)|)
      ensures ok ==> data == old(incoming)[..n] && incoming == old(incoming)[n..]
    {
      data := [];
      while |data| < n
        invariant |data| <= n && old(incoming) == data + incoming
        decreases n - |data|
      {
        var chunk := Recv(n - |data|);
        if chunk == [] { return false, data; }
        Regroup(data, chunk, incoming);
        data := data + chunk;
      }
      return true, data;
    }

    lemma Regroup(a: seq<Byte>, b: seq<Byte>, c: seq<Byte>)
      ensures a + (b + c) == (a + b) + c
    {
    }

    /** `_recv_frame`: succeeds exactly when the stream starts with a frame of 1 to 65535 bytes, and
        then takes exactly that frame. */
    method RecvFrame() returns (ok: bool, payload: seq<Byte>)
      modifies this`incoming
      ensures ok ==> 1 <= |payload| <= 65535 && old(incoming) == Frame(payload) + incoming
      ensures !ok ==> forall p, rest: seq<Byte> | 1 <= |p| <= 65535 :: old(incoming) != Frame(p) + rest
    {
      ghost var all := incoming;
      var head;
      ok, head := RecvExact(4);
      if !ok {
        return false, [];
      }
      var length := BeValue(head);
      PowValues();
      if !(1 <= length <= 65535) {
        forall p, rest: seq<Byte> | 1 <= |p| <= 65535
          ensures all != Frame(p) + rest
        {
          FrameHead(p, rest);
        }
        return false, [];
      }
      ok, payload := RecvExact(length);
      if ok {
        BeInverse(head);
        assert all == head + (payload + incoming);
        Regroup(head, payload, incoming);
      } else {
        forall p, rest: seq<Byte> | 1 <= |p| <= 65535
          ensures all != Frame(p) + rest
        {
          FrameHead(p, rest);
        }
      }
    }

    lemma FrameHead(p: seq<Byte>, rest: seq<Byte>)
      requires |p| <= 65535
      ensures |Frame(p) + rest| >= 4 + |p| && BeValue((Frame(p) + rest)[..4]) == |p|
    {
      PowValues();
      BeRoundTrip(|p|, 4);
      assert (Frame(p) + rest)[..4] == BeBytes(|p|, 4);
    }
  }
}

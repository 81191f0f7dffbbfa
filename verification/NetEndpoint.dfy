/** The network endpoint's socket callbacks: a byte loop over a fixed receive buffer, and responses
    drained through a small pending buffer as the socket has room. One session at a time. */
module NetEndpoint {
  import opened Bytes
  import opened TcpFraming

  const RESPONSE_MAX: nat := 54
  const PENDING: nat := 58

  /** The bytes a session owes its peer: one frame for every command that has an answer. */
  function Wire(answers: seq<seq<Byte>>): seq<Byte> {
    if answers == [] then []
    else
      var last := answers[|answers| - 1];
      Wire(answers[..|answers| - 1]) + (if last == [] then [] else Frame(last))
  }

  /** What one more byte does to a stream whose frames are legal so far. */
  lemma NextByte(stream: seq<Byte>, b: Byte)
    requires !Parse(stream).bad
    ensures var p := Parse(stream); var next := p.rest + [b]; var q := Parse(stream + [b]);
            && Waiting(p.rest)
            && (|next| < 4 ==> q == Parsed(p.frames, next, false))
            && (|next| == 4 ==> q == Parsed(p.frames, next, !LegalLength(BeValue(next[..4]))))
            && (|next| > 4 ==>
                  q == if |next| == (4 + BeValue(p.rest[..4])) % TWO_32 then Parsed(p.frames + [next[4..]], [], false)
                       else Parsed(p.frames, next, false))
  {
    hide Parse, BeValue;
    var p := Parse(stream);
    var next := p.rest + [b];
    RestIsUnfinished(stream);
    Continues(stream, b);
    OneMore(p.rest, b);
    if |next| > 4 {
      NoWrap(BeValue(p.rest[..4]));
    }
  }

  lemma NoWrap(n: nat)
    requires LegalLength(n)
    ensures (4 + n) % TWO_32 == 4 + n
  {
  }

  lemma Continues(stream: seq<Byte>, b: Byte)
    requires !Parse(stream).bad
    ensures var p := Parse(stream); var q := Parse(p.rest + [b]);
            Parse(stream + [b]) == (if q.frames == [] then q.(frames := p.frames) else q.(frames := p.frames + q.frames))
  {
    ParseContinues(stream, [b]);
    assert Parse(stream).frames + [] == Parse(stream).frames;
  }

  lemma OneMore(rest: seq<Byte>, b: Byte)
    requires Waiting(rest)
    ensures var next := rest + [b];
            Parse(next) ==
              if |next| < 4 then Parsed([], next, false)
              else if |rest| < 4 then Parsed([], next, !LegalLength(BeValue(next[..4])))
              else if |next| == 4 + BeValue(rest[..4]) then Parsed([next[4..]], [], false)
              else Parsed([], next, false)
  {
    var next := rest + [b];
    if |rest| >= 4 {
      assert next[..4] == rest[..4];
      if |next| == 4 + BeValue(rest[..4]) {
        assert next[4..4 + BeValue(rest[..4])] == next[4..];
        assert next[4 + BeValue(rest[..4])..] == [];
        assert [next[4..]] + [] == [next[4..]];
      }
    }
  }

  /** After an illegal length no further byte completes a frame, not even by index wrap-around. */
  lemma BadByte(stream: seq<Byte>, b: Byte)
    requires Parse(stream).bad && |Parse(stream).rest| < FRAME_MAX
    ensures var p := Parse(stream);
            && Parse(stream + [b]) == Parsed(p.frames, p.rest + [b], true)
            && |p.rest| >= 4 && |p.rest| + 1 != (4 + BeValue(p.rest[..4])) % TWO_32
  {
    RestIsUnfinished(stream);
    ParseContinues(stream, [b]);
    PowValues();
    Beyond(BeValue(Parse(stream).rest[..4]), |Parse(stream).rest| + 1);
  }

  lemma Beyond(n: nat, index: nat)
    requires !LegalLength(n) && n < TWO_32 && 4 < index <= FRAME_MAX
    ensures index != (4 + n) % TWO_32
  {
  }

  lemma WireSnoc(answers: seq<seq<Byte>>, a: seq<Byte>)
    ensures Wire(answers + [a]) == Wire(answers) + (if a == [] then [] else Frame(a))
  {
    assert (answers + [a])[..|answers|] == answers;
  }

  /** The peer reads the answers in the order they were given. */
  lemma {:induction false} WireSplits(answers: seq<seq<Byte>>)
    requires answers != []
    ensures Wire(answers) == (if answers[0] == [] then [] else Frame(answers[0])) + Wire(answers[1..])
  {
    var last := |answers| - 1;
    if last > 0 {
      WireSplits(answers[..last]);
      assert answers[..last][1..] == answers[1..][..last - 1];
      var first := if answers[0] == [] then [] else Frame(answers[0]);
      var tail := if answers[last] == [] then [] else Frame(answers[last]);
      Associates(first, Wire(answers[1..][..last - 1]), tail);
    }
  }

  lemma Associates(a: seq<Byte>, b: seq<Byte>, c: seq<Byte>)
    ensures (a + b) + c == a + (b + c)
  {
  }

  function Concat(chain: seq<seq<Byte>>): seq<Byte> {
    if chain == [] then [] else Concat(chain[..|chain| - 1]) + chain[|chain| - 1]
  }

  function Least(a: nat, b: nat): nat {
    if a < b then a else b
  }

  class Endpoint {
    /** What the command core answers to the n-th frame it is handed, were it this one. Nothing is
        assumed about it, so it stands for any core whose state changes from frame to frame. */
    const command: (nat, seq<Byte>) -> seq<Byte>
    /** Frames handed over in all sessions, and in those before this one. */
    var handed: nat
    ghost var earlier: nat
    const rx: array<Byte>
    var rxLen: nat
    const pending: array<Byte>
    var pendingLen: nat
    var open: bool

    /** The session's history: bytes received, frames handed to the command core, its answers, and
        bytes written to the socket. */
    ghost var stream: seq<Byte>
    ghost var frames: seq<seq<Byte>>
    ghost var answers: seq<seq<Byte>>
    ghost var written: seq<Byte>

    /** Buffers in bounds, and bytes written plus bytes pending are exactly what is owed. */
    ghost predicate Balanced()
      reads this, pending
    {
      && rx.Length == FRAME_MAX && rxLen <= FRAME_MAX
      && pending.Length == PENDING && pendingLen <= PENDING
      && rx != pending
      && handed == earlier + |frames| && Answered(earlier, frames, answers)
      && (open ==> written + pending[..pendingLen] == Wire(answers))
      && (!open ==> rxLen == 0 && pendingLen == 0 && written <= Wire(answers))
    }

    /** Frames delivered are the frames of the stream; the buffer holds its unfinished rest. */
    ghost predicate Valid()
      reads this, rx, pending
    {
      && Balanced()
      && frames == Parse(stream).frames
      && (open ==> Parse(stream) == Parsed(frames, rx[..rxLen], false))
    }

    /** `command_process_frame`, whose response buffer holds 54 bytes. */
    function Answer(n: nat, frame: seq<Byte>): (resp: seq<Byte>)
      ensures |resp| <= 54 && (|command(n, frame)| <= 54 ==> resp == command(n, frame))
    {
      if |command(n, frame)| <= RESPONSE_MAX then command(n, frame) else []
    }

    /** Each frame has the command core's answer to it. */
    ghost predicate Answered(first: nat, frames: seq<seq<Byte>>, answers: seq<seq<Byte>>) {
      |answers| == |frames| && forall k | 0 <= k < |frames| :: answers[k] == Answer(first + k, frames[k])
    }

    lemma OneMoreAnswer(first: nat, frames: seq<seq<Byte>>, answers: seq<seq<Byte>>, frame: seq<Byte>)
      requires Answered(first, frames, answers)
      ensures Answered(first, frames + [frame], answers + [Answer(first + |frames|, frame)])
    {
    }

    /** A second answer fell due while an earlier one was still pending. */
    ghost predicate Choked()
      reads this
    {
      answers != [] && answers[|answers| - 1] != [] && written != Wire(answers[..|answers| - 1])
    }

    constructor (command: (nat, seq<Byte>) -> seq<Byte>)
      ensures Valid() && !open && fresh(rx) && fresh(pending)
      ensures this.command == command && handed == 0
    {
      this.command, handed, earlier := command, 0, 0;
      rx := new Byte[2048];
      pending := new Byte[58];
      rxLen, pendingLen, open := 0, 0, false;
      stream, frames, answers, written := [], [], [], [];
    }

    /** `net_session_close` and `net_err_cb`. */
    method Close()
      requires Balanced()
      modifies this`open, this`rxLen, this`pendingLen
      ensures Balanced() && !open
    {
      open := false;
      rxLen, pendingLen := 0, 0;
    }

    /** `net_accept_cb`. */
    method Accept() returns (accepted: bool)
      requires Valid()
      modifies this
      ensures Valid()
      ensures open && accepted == !old(open)
      ensures accepted ==> stream == [] && frames == [] && written == []
      ensures handed == old(handed)
      ensures !accepted ==> stream == old(stream) && frames == old(frames) && answers == old(answers) && written == old(written)
    {
      if open || pendingLen != 0 { return false; }
      open, rxLen, pendingLen := true, 0, 0;
      earlier := handed;
      stream, frames, answers, written := [], [], [], [];
      return true;
    }

    /** `net_sent_cb`: writes as much of the pending bytes as the socket takes; `space` is its send
        buffer's room, `accepted` whether the write succeeds. */
    method Sent(space: nat, accepted: bool)
      requires Balanced() && open
      modifies this`pendingLen, this`written, pending
      ensures Balanced()
      ensures written ==
                old(written) + old(pending[..if !accepted then 0 else if pendingLen < space then pendingLen else space])
    {
      hide Wire, Answered;
      if pendingLen == 0 { return; }
      if space == 0 { return; }
      var n := Least(pendingLen, space);
      if !accepted { return; }
      ghost var before := pending[..pendingLen];
      written := written + pending[..n];
      assert pending[..n] == before[..n];
      if n >= pendingLen {
        pendingLen := 0;
      } else {
        MoveDown(n);
        pendingLen := pendingLen - n;
        assert pending[..pendingLen] == before[n..];
      }
      assert written + pending[..pendingLen] == old(written) + before;
    }

    method MoveDown(n: nat)
      requires pending.Length == PENDING && n < pendingLen <= PENDING
      modifies pending
      ensures pending[..pendingLen - n] == old(pending[..pendingLen])[n..]
    {
      for i := 0 to pendingLen - n
        invariant forall k | 0 <= k < i :: pending[k] == old(pending[k + n])
        invariant forall k | i <= k < pendingLen :: pending[k] == old(pending[k])
      {
        pending[i] := pending[i + n];
      }
    }

    /** `net_process_frame`: hands the buffered frame to the command core and queues its answer; a
        second answer while one is still pending closes the session. */
    method ProcessFrame()
      requires Balanced() && open && rxLen >= 4
      modifies this`rxLen, this`pendingLen, this`open, this`frames, this`answers, this`written, this`handed, pending
      ensures Balanced() && rxLen == 0
      ensures !open ==> Choked()
      ensures var frame := old(rx[4..rxLen]);
              frames == old(frames) + [frame] && answers == old(answers) + [Answer(old(handed), frame)]
    {
      hide Wire, Answered, BeBytes;
      var frame := rx[4..rxLen];
      OneMoreAnswer(earlier, frames, answers, frame);
      var resp := Answer(handed, frame);
      handed := handed + 1;
      WireSnoc(answers, resp);
      assert Wire(answers) <= Wire(answers + [resp]);
      rxLen := 0;
      if resp == [] {
        frames, answers := frames + [frame], answers + [resp];
        return;
      }
      if pendingLen != 0 {
        assert written <= Wire(answers) && written != Wire(answers);
        ghost var settled := answers;
        frames, answers := frames + [frame], answers + [resp];
        assert answers[..|answers| - 1] == settled;
        open, pendingLen := false, 0;
        return;
      }
      Queue(Frame(resp));
      frames, answers := frames + [frame], answers + [resp];
      var space: nat, accepted: bool := *, *;
      Sent(space, accepted);
    }

    method Queue(bytes: seq<Byte>)
      requires pending.Length == PENDING && |bytes| <= PENDING
      modifies this`pendingLen, pending
      ensures pendingLen == |bytes| && pending[..pendingLen] == bytes
    {
      for i := 0 to |bytes|
        invariant pending[..i] == bytes[..i]
      {
        pending[i] := bytes[i];
      }
      pendingLen := |bytes|;
    }

    /** Past an illegal length the loop keeps filling the buffer until its segment ends. */
    ghost predicate Spoiled(room: nat)
      reads this, rx, pending
    {
      && Balanced() && open
      && frames == Parse(stream).frames
      && Parse(stream) == Parsed(frames, rx[..rxLen], true)
      && rxLen + room <= FRAME_MAX
    }

    method Store(b: Byte)
      requires rx.Length == FRAME_MAX && rxLen < FRAME_MAX
      modifies this`rxLen, this`stream, rx
      ensures rxLen == old(rxLen) + 1 && rx[..rxLen] == old(rx[..rxLen]) + [b]
      ensures stream == old(stream) + [b]
    {
      rx[rxLen] := b;
      rxLen := rxLen + 1;
      stream := stream + [b];
    }

    /** A byte of the length prefix. */
    method TakeHeaderByte(b: Byte, ghost room: nat) returns (overflow: bool)
      requires Valid() && open && rxLen < 4
      requires 0 < room <= 2045
      modifies this`rxLen, this`stream, rx
      ensures stream == old(stream) + [b]
      ensures if overflow then Spoiled(room - 1) else Valid()
    {
      hide Parse, BeValue, Wire, Answered;
      overflow := false;
      ghost var next := rx[..rxLen] + [b];
      NextByte(stream, b);
      Store(b);
      if rxLen == 4 {
        assert rx[..4] == next == next[..4];
        var n := BeValue(rx[..4]);
        overflow := n == 0 || n > BODY_MAX;
      }
    }

    /** A byte of a frame's body. */
    method TakeBodyByte(b: Byte)
      requires Valid() && open && 4 <= rxLen < FRAME_MAX
      modifies this, rx, pending
      ensures stream == old(stream) + [b]
      ensures Valid() && (!open ==> Choked())
    {
      hide Parse, BeValue, Wire, Answered;
      ghost var before := rx[..rxLen];
      ghost var next := before + [b];
      NextByte(stream, b);
      Store(b);
      assert rx[..4] == rx[..rxLen][..4] == next[..4] == before[..4];
      if rxLen == (4 + BeValue(rx[..4])) % TWO_32 {
        assert rx[4..rxLen] == rx[..rxLen][4..] == next[4..];
        ProcessFrame();
        assert rx[..rxLen] == [];
      }
    }

    /** One byte of the inner loop of `net_recv_cb`. */
    method TakeByte(b: Byte, ghost room: nat) returns (overflow: bool)
      requires Valid() && open
      requires 0 < room <= 2045
      modifies this, rx, pending
      ensures stream == old(stream) + [b]
      ensures open ==> if overflow then Spoiled(room - 1) else Valid()
      ensures !open ==> overflow && Valid() && Choked()
    {
      RestIsUnfinished(stream);
      GrowKeeps(rx[..rxLen], b, room);
      if rxLen < 4 {
        overflow := TakeHeaderByte(b, room);
      } else {
        TakeBodyByte(b);
        overflow := !open;
      }
    }

    /** A byte after an illegal length: the index comparison cannot succeed any more. */
    method SkipByte(b: Byte, ghost room: nat)
      requires Spoiled(room) && room > 0
      modifies this`rxLen, this`stream, rx
      ensures stream == old(stream) + [b]
      ensures Spoiled(room - 1)
    {
      hide Parse, Wire, Answered;
      ghost var rest := rx[..rxLen];
      BadByte(stream, b);
      Store(b);
      ghost var next := rest + [b];
      assert rx[..rxLen] == next;
      assert rx[..4] == rx[..rxLen][..4] == next[..4] == rest[..4];
      assert rxLen != (4 + BeValue(rx[..4])) % TWO_32;
    }

    /** Between segments: running, stopped by an illegal length, or closed. */
    ghost predicate Between(overflow: bool)
      reads this, rx, pending
    {
      if open && overflow then Spoiled(0) else Valid() && (!open ==> overflow && Choked())
    }

    /** The inner loop of `net_recv_cb` over one segment. */
    method TakeSegment(data: seq<Byte>) returns (overflow: bool, ghost taken: seq<Byte>)
      requires Valid() && open && |data| <= 2045
      modifies this, rx, pending
      ensures taken <= data && stream == old(stream) + taken
      ensures open ==> taken == data
      ensures Between(overflow)
    {
      hide Parse, BeValue, Wire, Answered;
      overflow, taken := false, [];
      var i := 0;
      while i < |data|
        invariant i <= |data| && taken == data[..i] && stream == old(stream) + taken
        invariant open
        invariant if overflow then Spoiled(|data| - i) else Valid()
      {
        var spoiled := overflow;
        if spoiled {
          SkipByte(data[i], |data| - i);
        } else {
          overflow := TakeByte(data[i], |data| - i);
        }
        taken := taken + [data[i]];
        assert data[..i + 1] == data[..i] + [data[i]];
        i := i + 1;
        if !open { return; }
      }
    }

    /** The outer loop of `net_recv_cb`. */
    method TakeChain(segments: seq<seq<Byte>>) returns (overflow: bool, ghost taken: seq<Byte>)
      requires Valid() && open && forall q <- segments :: |q| <= 2045
      modifies this, rx, pending
      ensures stream == old(stream) + taken && taken <= Concat(segments)
      ensures open ==> taken == Concat(segments) || overflow
      ensures Between(overflow)
    {
      hide Parse, BeValue, Wire, Answered;
      overflow, taken := false, [];
      var k := 0;
      while k < |segments| && !overflow
        invariant k <= |segments| && stream == old(stream) + taken
        invariant if open then taken == Concat(segments[..k]) else taken <= Concat(segments[..k])
        invariant Between(overflow)
      {
        ghost var part;
        overflow, part := TakeSegment(segments[k]);
        ConcatSnoc(segments, k, part);
        Associates(old(stream), taken, part);
        taken := taken + part;
        k := k + 1;
      }
      PrefixOfAll(segments, k, taken);
    }

    /** `net_recv_cb` on a chain of segments, absent when the peer has closed or failed. Segments of
        at most 1460 bytes, TCP's limit, satisfy its one demand. */
    method Receive(chain: Option<seq<seq<Byte>>>) returns (ghost taken: seq<Byte>)
      requires Valid()
      requires chain.Some? ==> forall q <- chain.value :: |q| <= 2045
      modifies this, rx, pending
      ensures Valid()
      ensures stream == old(stream) + taken
      ensures old(open) && chain.Some? ==> taken <= Concat(chain.value) && (open ==> taken == Concat(chain.value))
      ensures old(open) && chain.Some? && !open ==> Parse(stream).bad || Choked()
      ensures !old(open) || chain.None? ==> taken == [] && !open
    {
      hide Parse, Wire, Answered;
      taken := [];
      if !open { return; }
      if chain.None? {
        Close();
        return;
      }
      var overflow;
      overflow, taken := TakeChain(chain.value);
      if overflow { Close(); }
    }

    lemma PrefixOfAll(chain: seq<seq<Byte>>, k: nat, taken: seq<Byte>)
      requires k <= |chain| && taken <= Concat(chain[..k])
      ensures taken <= Concat(chain)
      ensures k == |chain| ==> chain[..k] == chain
    {
      ConcatPrefix(chain, k);
    }

    lemma ConcatSnoc(chain: seq<seq<Byte>>, k: nat, part: seq<Byte>)
      requires k < |chain| && part <= chain[k]
      ensures Concat(chain[..k + 1]) == Concat(chain[..k]) + chain[k]
      ensures Concat(chain[..k]) + part <= Concat(chain[..k + 1])
    {
      assert chain[..k + 1][..k] == chain[..k];
    }

    lemma {:induction false} ConcatPrefix(chain: seq<seq<Byte>>, k: nat)
      requires k <= |chain|
      ensures Concat(chain[..k]) <= Concat(chain)
      decreases |chain|
    {
      if k == |chain| {
        assert chain[..k] == chain;
      } else {
        var last := |chain| - 1;
        ConcatPrefix(chain[..last], k);
        assert chain[..last][..k] == chain[..k];
      }
    }
  }
}

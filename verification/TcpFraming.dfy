/** The length-prefixed stream of the network endpoint: what a byte stream means, independently of
    how TCP cuts it. */
module TcpFraming {
  import opened Bytes

  const FRAME_MAX: nat := 2048
  const BODY_MAX: nat := 2044
  const TCP_MSS: nat := 1460

  /** Complete frames, the unfinished rest, and whether the rest starts with an illegal length. */
  datatype Parsed = Parsed(frames: seq<seq<Byte>>, rest: seq<Byte>, bad: bool)

  predicate LegalLength(n: nat) {
    1 <= n <= BODY_MAX
  }

  function Parse(s: seq<Byte>): Parsed
    decreases |s|
  {
    if |s| < 4 then Parsed([], s, false)
    else
      var n := BeValue(s[..4]);
      if !LegalLength(n) then Parsed([], s, true)
      else if |s| < 4 + n then Parsed([], s, false)
      else Follow(s[4..4 + n], Parse(s[4 + n..]))
  }

  function Follow(frame: seq<Byte>, p: Parsed): Parsed {
    Parsed([frame] + p.frames, p.rest, p.bad)
  }

  /** One frame on the wire: `_send_frame` and the endpoint's own responses. */
  function Frame(payload: seq<Byte>): seq<Byte> {
    BeBytes(|payload|, 4) + payload
  }

  function FrameAll(payloads: seq<seq<Byte>>): seq<Byte> {
    if payloads == [] then [] else FrameAll(payloads[..|payloads| - 1]) + Frame(payloads[|payloads| - 1])
  }

  // ---- Parsing is incremental ----

  function After(first: Parsed, more: seq<Byte>): Parsed {
    if first.bad then Parsed(first.frames, first.rest + more, true)
    else
      var p := Parse(first.rest + more);
      Parsed(first.frames + p.frames, p.rest, p.bad)
  }

  lemma AfterFollow(frame: seq<Byte>, p: Parsed, t: seq<Byte>)
    ensures After(Follow(frame, p), t) == Follow(frame, After(p, t))
  {
    if !p.bad {
      var q := Parse(p.rest + t);
      assert ([frame] + p.frames) + q.frames == [frame] + (p.frames + q.frames);
    }
  }

  /** Parsing a longer stream continues from what the shorter one left. */
  lemma {:induction false} ParseContinues(s: seq<Byte>, t: seq<Byte>)
    ensures Parse(s + t) == After(Parse(s), t)
    decreases |s|
  {
    if |s| < 4 || !LegalLength(BeValue(s[..4])) || |s| < 4 + BeValue(s[..4]) {
      Unfinished(s, t);
    } else {
      var n := BeValue(s[..4]);
      var rest := s[4 + n..];
      assert (s + t)[..4] == s[..4] && (s + t)[4..4 + n] == s[4..4 + n] && (s + t)[4 + n..] == rest + t;
      ParseContinues(rest, t);
      AfterFollow(s[4..4 + n], Parse(rest), t);
    }
  }

  lemma Unfinished(s: seq<Byte>, t: seq<Byte>)
    requires |s| < 4 || !LegalLength(BeValue(s[..4])) || |s| < 4 + BeValue(s[..4])
    ensures Parse(s + t) == After(Parse(s), t)
  {
    if |s| >= 4 {
      assert (s + t)[..4] == s[..4];
    }
    if !Parse(s).bad {
      assert [] + Parse(s + t).frames == Parse(s + t).frames;
    }
  }

  lemma {:induction false} RestIsUnfinished(s: seq<Byte>)
    ensures var p := Parse(s);
            && Parse(p.rest) == Parsed([], p.rest, p.bad)
            && (p.bad ==> |p.rest| >= 4 && !LegalLength(BeValue(p.rest[..4])))
            && (!p.bad ==> |p.rest| < 4 || (LegalLength(BeValue(p.rest[..4])) && |p.rest| < 4 + BeValue(p.rest[..4])))
    decreases |s|
  {
    if |s| >= 4 {
      var n := BeValue(s[..4]);
      if LegalLength(n) && |s| >= 4 + n {
        RestIsUnfinished(s[4 + n..]);
      }
    }
  }

  lemma FrameParses(payload: seq<Byte>)
    requires LegalLength(|payload|)
    ensures Parse(Frame(payload)) == Parsed([payload], [], false)
  {
    var f := Frame(payload);
    PowValues();
    BeRoundTrip(|payload|, 4);
    assert f[..4] == BeBytes(|payload|, 4) && f[4..] == payload;
    assert f[4..4 + |payload|] == payload && f[4 + |payload|..] == [];
    assert [payload] + [] == [payload];
  }

  lemma OneFrameMore(stream: seq<Byte>, frames: seq<seq<Byte>>, payload: seq<Byte>)
    requires Parse(stream) == Parsed(frames, [], false) && LegalLength(|payload|)
    ensures Parse(stream + Frame(payload)) == Parsed(frames + [payload], [], false)
  {
    hide Parse, BeValue, BeBytes;
    ParseContinues(stream, Frame(payload));
    FrameParses(payload);
    assert [] + Frame(payload) == Frame(payload);
  }

  /** Framing round trip: any payloads of legal length, framed and concatenated, parse back to
      exactly themselves with nothing left over. */
  lemma {:induction false} FramesParseBack(payloads: seq<seq<Byte>>)
    requires forall p <- payloads :: LegalLength(|p|)
    ensures Parse(FrameAll(payloads)) == Parsed(payloads, [], false)
  {
    if payloads != [] {
      var k := |payloads| - 1;
      FramesParseBack(payloads[..k]);
      OneFrameMore(FrameAll(payloads[..k]), payloads[..k], payloads[k]);
      assert payloads[..k] + [payloads[k]] == payloads;
    }
  }

  lemma {:induction false} FrameAllConcat(a: seq<seq<Byte>>, b: seq<seq<Byte>>)
    ensures FrameAll(a + b) == FrameAll(a) + FrameAll(b)
  {
    if b == [] {
      assert a + b == a;
    } else {
      var k := |b| - 1;
      FrameAllConcat(a, b[..k]);
      assert (a + b)[..|a + b| - 1] == a + b[..k];
    }
  }

  // ---- The receive index ----

  /** The receive buffer after one byte, were it unbounded; a completed frame empties it. */
  function Grow(rx: seq<Byte>, b: Byte): seq<Byte> {
    var next := rx + [b];
    if |rx| >= 4 && |next| == (4 + BeValue(rx[..4])) % TWO_32 then [] else next
  }

  /** The largest receive index while one segment is taken in. */
  function Peak(rx: seq<Byte>, segment: seq<Byte>): nat
    decreases |segment|
  {
    if segment == [] then |rx|
    else
      var rest := Peak(Grow(rx, segment[0]), segment[1..]);
      if |rx| + 1 > rest then |rx| + 1 else rest
  }

  /** Where a segment can start: mid-header, or inside a frame of legal length. */
  predicate Waiting(rx: seq<Byte>) {
    |rx| < 4 || (LegalLength(BeValue(rx[..4])) && |rx| < 4 + BeValue(rx[..4]))
  }

  /** Inside a segment an illegal length does not stop the byte loop. */
  predicate Overrun(rx: seq<Byte>, room: nat) {
    |rx| >= 4 && !LegalLength(BeValue(rx[..4])) && |rx| + room <= FRAME_MAX
  }

  lemma GrowKeeps(rx: seq<Byte>, b: Byte, room: nat)
    requires room > 0 && room <= 2045
    requires Waiting(rx) || Overrun(rx, room)
    ensures |rx| + 1 <= FRAME_MAX
    ensures Waiting(Grow(rx, b)) || Overrun(Grow(rx, b), room - 1)
  {
    var next := rx + [b];
    if |rx| >= 4 {
      assert next[..4] == rx[..4];
      PowValues();
    }
  }

  lemma {:induction false} PeakBounded(rx: seq<Byte>, segment: seq<Byte>)
    requires |segment| <= 2045
    requires Waiting(rx) || Overrun(rx, |segment|)
    ensures Peak(rx, segment) <= FRAME_MAX
    decreases |segment|
  {
    if segment != [] {
      GrowKeeps(rx, segment[0], |segment|);
      PeakBounded(Grow(rx, segment[0]), segment[1..]);
    }
  }

  /** The buffer bound holds for every segment of a given size, and every state a segment can find,
      exactly up to 2045 bytes a segment; TCP's 1460 is well inside. */
  lemma SegmentBoundExact(size: nat)
    ensures (forall rx, segment | Waiting(rx) && |segment| <= size :: Peak(rx, segment) <= FRAME_MAX) <==> size <= 2045
    ensures TCP_MSS <= 2045
  {
    if size <= 2045 {
      forall rx, segment | Waiting(rx) && |segment| <= size
        ensures Peak(rx, segment) <= FRAME_MAX
      {
        PeakBounded(rx, segment);
      }
    } else {
      var segment: seq<Byte> := seq(2046, i => 0);
      ZeroRun([0, 0, 0], segment);
      assert Waiting([0, 0, 0]);
    }
  }

  /** A zero length is never completed, so the index just runs on. */
  lemma {:induction false} ZeroRun(rx: seq<Byte>, segment: seq<Byte>)
    requires |rx| >= 3 && (forall i | 0 <= i < |rx| :: rx[i] == 0) && (forall i | 0 <= i < |segment| :: segment[i] == 0)
    ensures Peak(rx, segment) >= |rx| + |segment|
    decreases |segment|
  {
    if segment != [] {
      if |rx| >= 4 {
        assert rx[..4] == [0, 0, 0, 0];
        assert BeValue(rx[..4]) == 0 by { BeZero(rx[..4]); }
      }
      ZeroRun(Grow(rx, segment[0]), segment[1..]);
    }
  }

  lemma {:induction false} BeZero(s: seq<Byte>)
    requires forall i | 0 <= i < |s| :: s[i] == 0
    ensures BeValue(s) == 0
  {
    if s != [] {
      BeZero(s[..|s| - 1]);
    }
  }

  // ---- The bytes of a frame ----

  /** A frame is its length in four big-endian bytes, and its payload. */
  lemma FrameBytes(payload: seq<Byte>)
    ensures var n := |payload|;
            Frame(payload)[..4] == [n / 16777216 % 256, n / 65536 % 256, n / 256 % 256, n % 256]
    ensures Frame(payload)[4..] == payload
  {
    BigEndian(|payload|);
  }

  /** The length field of the first four bytes decides: below 1 or above 2044 the stream is bad. */
  lemma LengthRule(s: seq<Byte>)
    requires |s| >= 4
    ensures var n := 16777216 * s[0] as int + 65536 * s[1] as int + 256 * s[2] as int + s[3] as int;
            if !(1 <= n <= 2044) then Parse(s) == Parsed([], s, true)
            else if |s| < 4 + n then Parse(s) == Parsed([], s, false)
            else Parse(s).frames != [] && Parse(s).frames[0] == s[4..4 + n]
  {
    BigEndianValue(s[..4]);
  }
}

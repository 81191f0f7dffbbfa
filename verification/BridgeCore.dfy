/** The typing core as the firmware runs it: fixed buffers updated in place. Every method is
    proved to be the step of the value-level machine. */
module BridgeCore {
  import opened Bytes
  import opened Utf8
  import opened Keymap
  import opened Compiler
  import Spec = CoreSpec

  type Entry = Spec.Entry
  type State = Spec.State

  class Core {
    var replayCount: nat
    const replay: array<Entry>
    var state: State
    var job: Entry
    var stagedAt: nat
    var ttl: nat
    var policy: Policy
    var strokeCount: nat
    var cursor: nat
    const strokes: array<Stroke>

    ghost predicate Valid()
      reads this
    {
      && replay.Length == Spec.LEDGER_CAPACITY && replayCount <= Spec.LEDGER_CAPACITY
      && strokes.Length == Spec.MAX_STROKES && cursor <= strokeCount <= Spec.MAX_STROKES
    }

    ghost function View(): Spec.Core
      requires Valid()
      reads this, replay, strokes
    {
      Spec.Core(replay[..replayCount], state, job, stagedAt, ttl, policy, strokeCount, cursor, strokes[..])
    }

    constructor ()
      ensures Valid() && fresh(replay) && fresh(strokes)
      ensures View() == Spec.Initial()
    {
      replayCount, state, job := 0, Spec.Empty, Spec.Entry(0, 0);
      stagedAt, ttl, policy, strokeCount, cursor := 0, 0, Spec.NO_POLICY, 0, 0;
      replay := new Entry[64](i => Spec.Entry(0, 0));
      strokes := new Stroke[2048](i => NO_STROKE);
      new;
      assert strokes[..] == Spec.Zeros(Spec.MAX_STROKES);
    }

    /** `terminate`: wipes everything after the ledger. */
    method Terminate(next: State)
      requires Valid()
      modifies this, strokes
      ensures Valid() && replayCount == old(replayCount)
      ensures View() == Spec.Terminated(old(View()), next)
    {
      job, stagedAt, ttl, policy, strokeCount, cursor := Spec.Entry(0, 0), 0, 0, Spec.NO_POLICY, 0, 0;
      for i := 0 to strokes.Length
        invariant forall k | 0 <= k < i :: strokes[k] == NO_STROKE
        modifies strokes
      {
        strokes[i] := NO_STROKE;
      }
      state := next;
      assert strokes[..] == Spec.Zeros(Spec.MAX_STROKES);
    }

    method Refuse(status: Status) returns (r: Status)
      requires Valid()
      modifies this, strokes
      ensures Valid() && replayCount == old(replayCount)
      ensures View() == Spec.Terminated(old(View()), Spec.Rejected) && r == status
    {
      Terminate(Spec.Rejected);
      return status;
    }

    method Replayed(entry: Entry) returns (found: bool)
      requires Valid()
      ensures found == (entry in View().ledger)
    {
      for i := 0 to replayCount
        invariant entry !in replay[..i]
      {
        if replay[i] == entry {
          assert replay[..replayCount][i] == entry;
          return true;
        }
      }
      return false;
    }

    /** Strokes past the count are zero; those before it are what has been compiled so far. */
    ghost predicate Pending(done: seq<Stroke>)
      requires Valid()
      reads this, strokes
    {
      && strokeCount == |done|
      && strokes[..strokeCount] == done
      && forall k | strokeCount <= k < Spec.MAX_STROKES :: strokes[k] == NO_STROKE
    }

    /** The body of the stage loop for one character: appends its strokes in place. */
    method EmitChar(cp: nat, p: Policy, ghost done: seq<Stroke>) returns (status: Status)
      requires Valid() && Pending(done) && strokeCount + 2 <= Spec.MAX_STROKES
      modifies this`strokeCount, strokes
      ensures Valid()
      ensures CompileChar(cp, p).Reject? ==> status == CompileChar(cp, p).status != Ok
      ensures CompileChar(cp, p).Strokes? ==> status == Ok && Pending(done + CompileChar(cp, p).strokes)
    {
      var at := strokeCount;
      strokeCount := strokeCount + 1;
      if cp < 32 || cp == 127 {
        if (cp == 10 && p.AllowLf()) || (cp == 9 && p.AllowTab()) {
          strokes[at] := strokes[at].(usage := if cp == 10 then 0x28 else 0x2b);
          return Ok;
        }
        return ErrPolicy;
      }
      var ok, stroke;
      if p.layout == LAYOUT_DE {
        ok, stroke := MapDe(cp);
      } else {
        ok, stroke := MapAscii(cp);
      }
      strokes[at] := stroke;
      if !ok { return ErrUnsupported; }
      if NeedsSpace(p.layout, cp) {
        strokes[strokeCount] := strokes[strokeCount].(usage := 44);
        strokeCount := strokeCount + 1;
      }
      return Ok;
    }

    /** The checks of `bridge_core_stage` on the request's fields, in their order. */
    method CheckRequest(r: Spec.Request) returns (status: Status)
      requires Valid()
      ensures status == Spec.Preflight(View().ledger, r)
    {
      if r.length == 0 || r.length > Spec.MAX_INPUT { return ErrLimit; }
      if r.text.None? || r.job.owner == 0 || r.job.id == 0 ||
         (r.policy.layout != LAYOUT_US && r.policy.layout != LAYOUT_DE) ||
         (r.policy.mode != MODE_PASSWORD && r.policy.mode != MODE_TEXT) ||
         r.ttl == 0 || r.ttl > Spec.MAX_TTL { return ErrArgument; }
      if r.policy.flags >= 4 || (r.policy.mode == MODE_PASSWORD && r.policy.flags != 0) { return ErrPolicy; }
      var seen := Replayed(r.job);
      if seen { return ErrReplay; }
      if replayCount == Spec.LEDGER_CAPACITY { return ErrLimit; }
      return Ok;
    }

    /** `bridge_core_stage`. */
    method Stage(r: Spec.Request) returns (status: Status)
      requires Valid() && r.Readable()
      modifies this, strokes, replay
      ensures Valid()
      ensures (View(), status) == Spec.Stage(old(View()), r)
    {
      hide Compile;
      if state == Spec.Staged || state == Spec.Executing { return ErrBusy; }
      Terminate(Spec.Empty);
      status := CheckRequest(r);
      if status != Ok {
        status := Refuse(status);
        return;
      }
      job, policy, stagedAt, ttl := r.job, r.policy, r.now, r.ttl;
      status := CompileText(r.text.value, r.length, r.policy);
      if status != Ok {
        status := Refuse(status);
        return;
      }
      Record(r);
    }

    /** A compiled job enters the ledger and is staged. */
    method Record(r: Spec.Request)
      requires Valid() && replayCount < Spec.LEDGER_CAPACITY && cursor == 0
      requires job == r.job && policy == r.policy && stagedAt == r.now && ttl == r.ttl
      requires Pending(strokes[..strokeCount])
      modifies this`replayCount, this`state, replay
      ensures Valid()
      ensures View() == old(Spec.Core(View().ledger + [r.job], Spec.Staged, r.job, r.now, r.ttl, r.policy,
                                      strokeCount, 0,
                                      strokes[..strokeCount] + Spec.Zeros(Spec.MAX_STROKES - strokeCount)))
    {
      replay[replayCount] := r.job;
      replayCount := replayCount + 1;
      state := Spec.Staged;
    }

    /** The loop of `bridge_core_stage` over the text. */
    method CompileText(utf8: seq<Byte>, length: nat, p: Policy) returns (status: Status)
      requires Valid() && Pending([]) && length <= Spec.MAX_INPUT && length <= |utf8|
      modifies this`strokeCount, strokes
      ensures Valid()
      ensures Compile(utf8[..length], p).Reject? ==> status == Compile(utf8[..length], p).status != Ok
      ensures Compile(utf8[..length], p).Strokes? ==> status == Ok && Pending(Compile(utf8[..length], p).strokes)
    {
      hide DecodeOne;
      ghost var text := utf8[..length];
      ghost var done := [];
      var offset := 0;
      while offset < length
        invariant Valid() && Pending(done)
        invariant offset <= length && |done| <= 2 * offset
        invariant Compile(text, p) == Prepend(done, Compile(text[offset..], p))
      {
        ghost var start := offset;
        assert text[start..] == utf8[start..length];
        var ok, next, cp := DecodeUtf8(utf8, length, offset);
        offset := next;
        if !ok { return ErrUtf8; }
        if cp == 13 && p.AllowLf() && offset < length && utf8[offset] == 10 {
          offset, cp := offset + 1, 10;
        }
        assert Head(text[start..], p) == Char(cp, offset - start);
        status := EmitChar(cp, p, done);
        if status != Ok { return; }
        ghost var more := CompileChar(cp, p).strokes;
        assert text[start..][offset - start..] == text[offset..];
        PrependTwice(done, more, Compile(text[offset..], p));
        done := done + more;
      }
      return Ok;
    }

    lemma PrependTwice(a: seq<Stroke>, b: seq<Stroke>, c: Compiled)
      ensures Prepend(a, Prepend(b, c)) == Prepend(a + b, c)
    {
      if c.Strokes? {
        assert a + (b + c.strokes) == (a + b) + c.strokes;
      }
    }

    method Abort()
      requires Valid()
      modifies this, strokes
      ensures Valid()
      ensures View() == Spec.Abort(old(View()))
    {
      Terminate(Spec.Cancelled);
    }

    method Cancel(entry: Entry) returns (status: Status)
      requires Valid()
      modifies this, strokes
      ensures Valid()
      ensures (View(), status) == Spec.Cancel(old(View()), entry)
    {
      if state != Spec.Staged && state != Spec.Executing { return ErrState; }
      if entry.owner != job.owner { return ErrOwner; }
      if entry.id != job.id { return ErrId; }
      Terminate(Spec.Cancelled);
      return Ok;
    }

    method Tick(now: nat) returns (status: Status)
      requires Valid()
      modifies this, strokes
      ensures Valid()
      ensures (View(), status) == Spec.Tick(old(View()), now)
    {
      if state == Spec.Staged && (now - stagedAt) % TWO_32 >= ttl {
        Terminate(Spec.Expired);
        return ErrExpired;
      }
      return Ok;
    }

    method Confirm(entry: Entry, now: nat) returns (status: Status)
      requires Valid()
      modifies this, strokes
      ensures Valid()
      ensures (View(), status) == Spec.Confirm(old(View()), entry, now)
    {
      if state != Spec.Staged { return ErrState; }
      if entry.owner != job.owner { return ErrOwner; }
      if entry.id != job.id { return ErrId; }
      status := Tick(now);
      if status == ErrExpired { return; }
      state := Spec.Executing;
      return Ok;
    }

    method Next(now: nat) returns (status: Status, stroke: Stroke)
      requires Valid()
      modifies this, strokes
      ensures Valid()
      ensures (View(), status, stroke) == Spec.Next(old(View()), now)
    {
      stroke := NO_STROKE;
      status := Tick(now);
      if status == ErrExpired { return; }
      if state != Spec.Executing { return ErrState, stroke; }
      if cursor == strokeCount {
        Terminate(Spec.Completed);
        return Done, stroke;
      }
      stroke := strokes[cursor];
      strokes[cursor] := NO_STROKE;
      cursor := cursor + 1;
      return Ok, stroke;
    }
  }
}

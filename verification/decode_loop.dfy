/**
 * The decoding loop of slotDataAvailable: `while (bytesAvailable() > 0)`,
 * one attempt per iteration, each ended by `continue` or by reaching the end
 * of the loop body. The socket's buffer is taken to receive no new bytes
 * while the slot runs; new bytes arrive between calls of the slot.
 *
 * The loop is stated over any attempt function with the guarantees every
 * decode attempt has (`Sound`), and then applied to the attempt as written
 * and to the corrected one.
 */
module DecodeLoop {
  import opened Wrappers
  import opened Bytes
  import opened DataStream
  import opened MessageCoder
  import CoderProofs

  /** One decode attempt on the buffered bytes. */
  type Step = seq<byte> -> Attempt

  /**
   * What an attempt promises on a non-empty buffer: the bytes left are a
   * suffix of it; a rollback emits nothing and leaves them all; any other
   * end consumes at least one byte.
   */
  ghost predicate StepOk(step: Step, b: seq<byte>)
  {
    |b| > 0 ==>
      && |step(b).rest| <= |b| && step(b).rest == b[|b| - |step(b).rest|..]
      && (step(b).ended == RolledBack ==> step(b).rest == b && step(b).emitted.None?)
      && (step(b).ended != RolledBack ==> |step(b).rest| < |b|)
  }

  /** An attempt keeps those promises on every buffer. */
  ghost predicate Sound(step: Step)
  {
    forall b: seq<byte> :: StepOk(step, b)
  }

  /** The attempt as written, on a non-empty buffer. */
  function AsWrittenStep(ck: Checksum): Step
  {
    b => if |b| == 0 then Attempt(None, b, RolledBack) else DecodeStep(b, ck)
  }

  /** The corrected attempt, on a non-empty buffer. */
  function GuardedStep(ck: Checksum): Step
  {
    b => if |b| == 0 then Attempt(None, b, RolledBack) else DecodeStepGuarded(b, ck)
  }

  /** An attempt with the outcome every decode attempt has keeps those promises. */
  lemma OutcomeStepOk(step: Step, b: seq<byte>)
    requires |b| > 0 && Outcome(b, step(b))
    ensures StepOk(step, b)
  {
  }

  /** The attempt as written keeps its promises on one buffer. */
  lemma AsWrittenStepOk(ck: Checksum, b: seq<byte>)
    ensures StepOk(AsWrittenStep(ck), b)
  {
    if |b| > 0 {
      assert AsWrittenStep(ck)(b) == Parse(b, ck, false);
      OutcomeStepOk(AsWrittenStep(ck), b);
    }
  }

  /** The attempt as written has the guarantees the loops rely on. */
  lemma AsWrittenSound(ck: Checksum)
    ensures Sound(AsWrittenStep(ck))
  {
    forall b: seq<byte> ensures StepOk(AsWrittenStep(ck), b) {
      AsWrittenStepOk(ck, b);
    }
  }

  /** The corrected attempt keeps its promises on one buffer. */
  lemma GuardedStepOk(ck: Checksum, b: seq<byte>)
    ensures StepOk(GuardedStep(ck), b)
  {
    if |b| > 0 {
      assert GuardedStep(ck)(b) == Parse(b, ck, true);
      OutcomeStepOk(GuardedStep(ck), b);
    }
  }

  /** So has the corrected attempt. */
  lemma GuardedSound(ck: Checksum)
    ensures Sound(GuardedStep(ck))
  {
    forall b: seq<byte> ensures StepOk(GuardedStep(ck), b) {
      GuardedStepOk(ck, b);
    }
  }

  /** The guarantees of a sound attempt, on one buffer. */
  lemma StepFacts(step: Step, b: seq<byte>)
    requires Sound(step) && |b| > 0
    ensures StepOk(step, b)
    ensures var a := step(b);
            && |a.rest| <= |b| && a.rest == b[|b| - |a.rest|..]
            && (a.ended == RolledBack ==> a.rest == b && a.emitted.None?)
            && (a.ended != RolledBack ==> |a.rest| < |b|)
  {
  }

  /** What a run of the loop leaves: the messages emitted, the bytes left, and whether the loop ended. */
  datatype Run = Run(messages: seq<Message>, rest: seq<byte>, finished: bool)

  /** The message an attempt emitted, as a sequence of zero or one. */
  function Emitted(a: Attempt): (ms: seq<Message>)
    ensures |ms| <= 1 && (ms == [] <==> a.emitted.None?)
    ensures a.emitted.Some? ==> ms == [a.emitted.value]
  {
    if a.emitted.Some? then [a.emitted.value] else []
  }

  /**
   * The loop as written, followed for at most `fuel` iterations: every
   * attempt, however it ended, is followed by another while a byte is
   * buffered. A run that ends has consumed every byte.
   */
  function LoopAsWritten(step: Step, buf: seq<byte>, fuel: nat): (run: Run)
    requires Sound(step)
    ensures run.finished <==> run.rest == []
    ensures |run.rest| <= |buf| && run.rest == buf[|buf| - |run.rest|..]
    decreases fuel
  {
    if |buf| == 0 then Run([], [], true)
    else if fuel == 0 then Run([], buf, false)
    else
      StepFacts(step, buf);
      var a := step(buf);
      var next := LoopAsWritten(step, a.rest, fuel - 1);
      assert a.rest[|a.rest| - |next.rest|..] == buf[|buf| - |next.rest|..];
      Run(Emitted(a) + next.messages, next.rest, next.finished)
  }

  /**
   * As written, an attempt that rolls back is repeated on the same bytes
   * without end: however many iterations are allowed, the loop emits
   * nothing, keeps every byte and does not end.
   */
  lemma {:induction false} RollbackNeverFinishes(step: Step, buf: seq<byte>, fuel: nat)
    requires Sound(step) && |buf| > 0 && step(buf).ended == RolledBack
    ensures LoopAsWritten(step, buf, fuel) == Run([], buf, false)
    decreases fuel
  {
    if fuel > 0 {
      StepFacts(step, buf);
      RollbackNeverFinishes(step, buf, fuel - 1);
      assert Emitted(step(buf)) + [] == [];
    }
  }

  /**
   * Every prefix of a frame from four bytes on, that is, a frame of which
   * only a part has arrived, keeps the loop as written running on it for
   * ever.
   */
  lemma PartialFrameSpins(t: MessageType, id: u16, content: seq<byte>, ck: Checksum, k: nat, fuel: nat)
    requires Accepted(t) && |content| <= MaxContent
    requires 4 <= k < Overhead + |content|
    ensures Sound(AsWrittenStep(ck))
    ensures var p := Encode(t, id, content, ck)[..k];
            LoopAsWritten(AsWrittenStep(ck), p, fuel) == Run([], p, false)
  {
    AsWrittenSound(ck);
    var p := Encode(t, id, content, ck)[..k];
    CoderProofs.PrefixFromFourBytesKept(ProtocolVersion, t, id, content, ck, k);
    assert AsWrittenStep(ck)(p) == DecodeStep(p, ck);
    RollbackNeverFinishes(AsWrittenStep(ck), p, fuel);
  }

  /**
   * The loop as intended: a rollback ends the slot, leaving the bytes for
   * the call the next readyRead makes. It always ends, because every
   * attempt other than a rollback consumes at least one byte; what it
   * leaves is empty or a buffer the attempt rolls back.
   */
  function Drain(step: Step, buf: seq<byte>): (run: Run)
    requires Sound(step)
    ensures run.finished
    ensures |run.rest| <= |buf| && run.rest == buf[|buf| - |run.rest|..]
    ensures run.rest == [] || (step(run.rest).ended == RolledBack && step(run.rest).rest == run.rest)
    decreases |buf|
  {
    if |buf| == 0 then Run([], [], true)
    else
      StepFacts(step, buf);
      var a := step(buf);
      if a.ended == RolledBack then Run([], buf, true)
      else
        var next := Drain(step, a.rest);
        assert a.rest[|a.rest| - |next.rest|..] == buf[|buf| - |next.rest|..];
        Run(Emitted(a) + next.messages, next.rest, true)
  }

  /** A buffer whose first attempt rolls back is left whole for the next call. */
  lemma DrainKeepsRollback(step: Step, buf: seq<byte>)
    requires Sound(step) && |buf| > 0 && step(buf).ended == RolledBack
    ensures Drain(step, buf) == Run([], buf, true)
  {
    StepFacts(step, buf);
  }

  /** A buffer holding exactly one message is drained to that message. */
  lemma DrainOneMessage(step: Step, buf: seq<byte>, m: Message)
    requires Sound(step) && |buf| > 0 && step(buf) == Attempt(Some(m), [], Committed)
    ensures Drain(step, buf) == Run([m], [], true)
  {
    StepFacts(step, buf);
    assert Emitted(step(buf)) + [] == [m];
  }

  /** The corrected attempt rolls back on every proper prefix of a frame. */
  lemma GuardedStepOnPrefix(t: MessageType, id: u16, content: seq<byte>, ck: Checksum, k: nat)
    requires Accepted(t) && |content| <= MaxContent
    requires 0 < k < Overhead + |content|
    ensures var p := Encode(t, id, content, ck)[..k];
            GuardedStep(ck)(p) == Attempt(None, p, RolledBack)
  {
    assert Encode(t, id, content, ck) == Layout(ProtocolVersion, TypeCode(t), id, |content|, content, ck(content));
    CoderProofs.GuardedKeepsPartialFrames(ProtocolVersion, t, id, content, ck, k);
  }

  /** The corrected attempt decodes a whole frame, leaving nothing. */
  lemma GuardedStepOnFrame(t: MessageType, id: u16, content: seq<byte>, ck: Checksum)
    requires Accepted(t) && |content| <= MaxContent
    ensures GuardedStep(ck)(Encode(t, id, content, ck)) == Attempt(Some(Message(t, id, content)), [], Committed)
  {
    var frame := Encode(t, id, content, ck);
    assert frame == Layout(ProtocolVersion, TypeCode(t), id, |content|, content, ck(content)) + [];
    CoderProofs.FrameDecodes(ProtocolVersion, t, id, content, ck, [], true);
  }

  /** Two pieces, joined in order, give back what was split. */
  lemma PiecesJoin(s: seq<byte>, k: nat)
    requires k <= |s|
    ensures s[..k] + s[k..] == s
  {
  }

  /**
   * A frame delivered in two pieces is decoded by the intended loop with
   * the corrected attempt: the call on the first piece keeps it, and the
   * call once the rest has arrived emits exactly the frame's message and
   * leaves nothing.
   */
  lemma PiecesDecoded(t: MessageType, id: u16, content: seq<byte>, ck: Checksum, k: nat)
    requires Accepted(t) && |content| <= MaxContent
    requires 0 < k < Overhead + |content|
    ensures Sound(GuardedStep(ck))
    ensures var frame := Encode(t, id, content, ck);
            && Drain(GuardedStep(ck), frame[..k]) == Run([], frame[..k], true)
            && Drain(GuardedStep(ck), frame[..k] + frame[k..]) == Run([Message(t, id, content)], [], true)
  {
    GuardedSound(ck);
    var frame := Encode(t, id, content, ck);
    GuardedStepOnPrefix(t, id, content, ck, k);
    DrainKeepsRollback(GuardedStep(ck), frame[..k]);
    PiecesJoin(frame, k);
    GuardedStepOnFrame(t, id, content, ck);
    DrainOneMessage(GuardedStep(ck), frame, Message(t, id, content));
  }
}

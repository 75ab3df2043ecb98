/**
 * Properties of the frame codec: what one decode attempt does with a
 * well-formed frame, with each kind of malformed frame, and with a frame that
 * has not fully arrived; and that the encoder's output decodes to the message
 * it was given.
 */
module CoderProofs {
  import opened Wrappers
  import opened Bytes
  import opened DataStream
  import opened MessageCoder

  /** A magic byte that differs from the expected one, after i correct ones. */
  predicate MagicFailsAt(buf: seq<byte>, i: nat)
  {
    i < 4 && i < |buf| && buf[..i] == Magic[..i] && buf[i] != Magic[i]
  }

  lemma MagicStageRejects(buf: seq<byte>, guarded: bool, i: nat)
    requires MagicFailsAt(buf, i)
    ensures ReadMagic(buf, guarded).Done?
    ensures ReadMagic(buf, guarded).h.Rejected?
    ensures ReadMagic(buf, guarded).h.r.pos == i + 1
  {
    assert buf[..i] == Magic[..i];
    if i > 0 { assert buf[0] == buf[..i][0]; }
    if i > 1 { assert buf[1] == buf[..i][1]; }
    if i > 2 { assert buf[2] == buf[..i][2]; }
  }

  /**
   * A wrong magic byte at offset i aborts the attempt: no message, and the
   * i + 1 bytes read so far are consumed.
   */
  lemma WrongMagicRejected(buf: seq<byte>, ck: Checksum, guarded: bool, i: nat)
    requires MagicFailsAt(buf, i)
    ensures Parse(buf, ck, guarded) == Attempt(None, buf[i + 1..], Aborted)
  {
    MagicStageRejects(buf, guarded, i);
  }

  /** The type byte of an accepted type passes the decoder's switch as that type. */
  lemma AcceptedTypeOfCode(t: MessageType)
    ensures AcceptedType(TypeCode(t)) == if Accepted(t) then Some(t) else None
  {
  }

  /** Where the fields of a frame, followed by anything, sit in the buffer. */
  lemma FrameFields(v: nat, code: byte, id: u16, content: seq<byte>, cks: u16, suffix: seq<byte>)
    requires v < 0x1_0000_0000 && |content| <= MaxContent
    ensures var buf := Layout(v, code, id, |content|, content, cks) + suffix;
            && |buf| == Overhead + |content| + |suffix|
            && buf[..4] == Magic
            && VersionField(buf) == v
            && buf[8] == code
            && FromBE(buf[9..11]) == id
            && DeclaredLength(buf) == |content|
            && buf[HeaderSize..HeaderSize + |content|] == content
            && FromBE(buf[HeaderSize + |content|..Overhead + |content|]) == cks
            && buf[Overhead + |content|..] == suffix
  {
    Pow256Widths();
    var n := |content|;
    var frame := Layout(v, code, id, n, content, cks);
    var buf := frame + suffix;
    assert buf[..4] == frame[..4];
    assert buf[4..8] == frame[4..8];
    assert buf[9..11] == frame[9..11];
    assert buf[11..HeaderSize] == frame[11..HeaderSize];
    assert buf[HeaderSize..HeaderSize + n] == frame[HeaderSize..HeaderSize + n];
    assert buf[HeaderSize + n..Overhead + n] == frame[HeaderSize + n..];
    FromBEToBE(v, 4);
    FromBEToBE(id, 2);
    FromBEToBE(n, 8);
    FromBEToBE(cks, 2);
  }

  /**
   * The header stages on a buffer whose whole header passes every check:
   * a header with the buffer's fields, read up to offset 19 with status Ok.
   */
  lemma ValidHeaderRead(buf: seq<byte>, guarded: bool)
    requires |buf| >= HeaderSize && HeaderPrefixOk(buf)
    ensures AcceptedType(buf[8]).Some?
    ensures ReadHeader(buf, guarded)
            == Header(AcceptedType(buf[8]).value, FromBE(buf[9..11]), DeclaredLength(buf), AtBody(buf))
  {
    assert buf[..4] == Magic;
    var s := ReadMagic(buf, guarded);
    var s2 := ReadVersionType(s.r, guarded);
    assert s2.Next? && s2.r.status == Ok;
    ReadHeaderFields(buf, guarded);
  }

  /** The reader after a whole valid header: transaction open, 19 bytes read. */
  function AtBody(buf: seq<byte>): Reader
  {
    Reader(buf, HeaderSize, 0, true, Ok, None)
  }

  /** On a valid header, the attempt is decided by the body reads alone. */
  lemma ParseAfterValidHeader(buf: seq<byte>, ck: Checksum, guarded: bool)
    requires |buf| >= HeaderSize && HeaderPrefixOk(buf)
    ensures AcceptedType(buf[8]).Some?
    ensures Parse(buf, ck, guarded)
            == ReadBody(AcceptedType(buf[8]).value, FromBE(buf[9..11]), DeclaredLength(buf), AtBody(buf), ck)
  {
    ValidHeaderRead(buf, guarded);
  }

  /**
   * A well-formed frame followed by anything decodes, as written and
   * guarded alike: exactly one message with the frame's type, instance id and
   * content is emitted, and exactly the frame's bytes are consumed. The
   * version may be 0 or 1 and the instance id anything: the checksum covers
   * the content only.
   */
  lemma FrameDecodes(v: nat, t: MessageType, id: u16, content: seq<byte>, ck: Checksum, suffix: seq<byte>, guarded: bool)
    requires v <= ProtocolVersion && Accepted(t) && |content| <= MaxContent
    ensures Parse(Layout(v, TypeCode(t), id, |content|, content, ck(content)) + suffix, ck, guarded)
            == Attempt(Some(Message(t, id, content)), suffix, Committed)
  {
    var n := |content|;
    var buf := Layout(v, TypeCode(t), id, n, content, ck(content)) + suffix;
    FrameFields(v, TypeCode(t), id, content, ck(content), suffix);
    AcceptedTypeOfCode(t);
    ParseAfterValidHeader(buf, ck, guarded);
    assert buf[HeaderSize..HeaderSize + n] == content;
    assert FromBE(buf[HeaderSize + n..HeaderSize + n + 2]) == ck(content);
    assert buf[HeaderSize + n + 2..] == suffix;
  }

  /**
   * A frame whose stored checksum differs from the checksum of its content
   * emits nothing, and the abort leaves the whole frame consumed.
   */
  lemma ChecksumMismatchRejected(v: nat, t: MessageType, id: u16, content: seq<byte>, cks: u16, ck: Checksum, suffix: seq<byte>, guarded: bool)
    requires v <= ProtocolVersion && Accepted(t) && |content| <= MaxContent
    requires cks != ck(content)
    ensures Parse(Layout(v, TypeCode(t), id, |content|, content, cks) + suffix, ck, guarded)
            == Attempt(None, suffix, Aborted)
  {
    var n := |content|;
    var buf := Layout(v, TypeCode(t), id, n, content, cks) + suffix;
    FrameFields(v, TypeCode(t), id, content, cks, suffix);
    AcceptedTypeOfCode(t);
    ParseAfterValidHeader(buf, ck, guarded);
    assert buf[HeaderSize..HeaderSize + n] == content;
    assert FromBE(buf[HeaderSize + n..HeaderSize + n + 2]) == cks;
    assert buf[HeaderSize + n + 2..] == suffix;
  }

  /** A version above 1 aborts the attempt after the 8 bytes of magic and version. */
  lemma NewerVersionRejected(buf: seq<byte>, ck: Checksum, guarded: bool)
    requires |buf| >= 8 && buf[..4] == Magic && VersionField(buf) > ProtocolVersion
    ensures Parse(buf, ck, guarded) == Attempt(None, buf[8..], Aborted)
  {
    var s := ReadMagic(buf, guarded);
    assert s.Next?;
  }

  /**
   * A type byte other than Acknowledge, NewInstance or InstanceMessage aborts
   * the attempt after 9 bytes.
   */
  lemma UnacceptedTypeRejected(buf: seq<byte>, ck: Checksum, guarded: bool)
    requires |buf| >= 9 && buf[..4] == Magic && VersionField(buf) <= ProtocolVersion
    requires AcceptedType(buf[8]).None?
    ensures Parse(buf, ck, guarded) == Attempt(None, buf[9..], Aborted)
  {
    var s := ReadMagic(buf, guarded);
    assert s.Next?;
  }

  /** A declared length above 1 MiB aborts the attempt after the 19 header bytes. */
  lemma OversizeLengthRejected(buf: seq<byte>, ck: Checksum, guarded: bool)
    requires |buf| >= HeaderSize && buf[..4] == Magic && VersionField(buf) <= ProtocolVersion
    requires AcceptedType(buf[8]).Some? && DeclaredLength(buf) > MaxContent
    ensures Parse(buf, ck, guarded) == Attempt(None, buf[HeaderSize..], Aborted)
  {
    var s := ReadMagic(buf, guarded);
    assert s.Next?;
    var s2 := ReadVersionType(s.r, guarded);
    assert s2.Next? && s2.r.status == Ok;
  }

  /**
   * When the buffer holds a valid header but the stream ends inside the
   * content or the checksum (or the declared length is below -1, which the
   * device refuses with a count other than the one asked for), the
   * transaction is rolled back: nothing is emitted and every byte stays.
   */
  lemma ShortBodyRolledBack(buf: seq<byte>, ck: Checksum, guarded: bool)
    requires |buf| >= HeaderSize && HeaderPrefixOk(buf)
    requires DeclaredLength(buf) < -1 || (0 <= DeclaredLength(buf) && |buf| < Overhead + DeclaredLength(buf))
    ensures Parse(buf, ck, guarded) == Attempt(None, buf, RolledBack)
  {
    ParseAfterValidHeader(buf, ck, guarded);
    assert buf[0..] == buf;
  }

  /**
   * A declared length of exactly -1 (eight 0xFF bytes) is the one negative
   * length the stream does not flag: the device answers the read with -1,
   * which equals the request, so the status stays Ok and the switch aborts,
   * dropping the 19 header bytes.
   */
  lemma MinusOneLengthAborted(buf: seq<byte>, ck: Checksum, guarded: bool)
    requires |buf| >= HeaderSize && HeaderPrefixOk(buf) && DeclaredLength(buf) == -1
    ensures Parse(buf, ck, guarded) == Attempt(None, buf[HeaderSize..], Aborted)
  {
    ParseAfterValidHeader(buf, ck, guarded);
  }

  /**
   * A negative declared length never emits: below -1 every byte stays, and
   * at -1 exactly the header is dropped.
   */
  lemma NegativeLengthNeverEmits(buf: seq<byte>, ck: Checksum, guarded: bool)
    requires |buf| >= HeaderSize && HeaderPrefixOk(buf) && DeclaredLength(buf) < 0
    ensures Parse(buf, ck, guarded).emitted == None
    ensures Parse(buf, ck, guarded).rest == if DeclaredLength(buf) == -1 then buf[HeaderSize..] else buf
  {
    if DeclaredLength(buf) == -1 {
      MinusOneLengthAborted(buf, ck, guarded);
    } else {
      ShortBodyRolledBack(buf, ck, guarded);
    }
  }

  /** A buffer whose first 19 bytes hold the given field values starts with their header. */
  lemma HeaderFramedBy(buf: seq<byte>, v: nat, code: byte, id: u16, n: nat)
    requires v < 0x1_0000_0000 && n <= MaxContent && |buf| >= HeaderSize
    requires buf[..4] == Magic && buf[4..8] == ToBE(v, 4) && buf[8] == code && buf[9..11] == ToBE(id, 2)
    requires buf[11..HeaderSize] == ToBE(n, 8)
    ensures buf[..HeaderSize] == HeaderBytes(v, code, id, n)
  {
    Pow256Widths();
    SplitAt(buf, 0, 4, 8);
    assert buf[0..8] == Magic + ToBE(v, 4);
    SplitAt(buf, 0, 8, 9);
    assert |buf[8..9]| == 1 && buf[8..9][0] == code;
    assert buf[0..9] == Magic + ToBE(v, 4) + [code];
    SplitAt(buf, 0, 9, 11);
    SplitAt(buf, 0, 11, HeaderSize);
  }

  /** A buffer whose leading fields hold the given values starts with their frame. */
  lemma FramedBy(buf: seq<byte>, v: nat, code: byte, id: u16, content: seq<byte>, cks: u16)
    requires v < 0x1_0000_0000 && |content| <= MaxContent && |buf| >= Overhead + |content|
    requires buf[..HeaderSize] == HeaderBytes(v, code, id, |content|)
    requires buf[HeaderSize..HeaderSize + |content|] == content
    requires buf[HeaderSize + |content|..Overhead + |content|] == ToBE(cks, 2)
    ensures buf == Layout(v, code, id, |content|, content, cks) + buf[Overhead + |content|..]
  {
    var n := |content|;
    SplitAt(buf, 0, HeaderSize, HeaderSize + n);
    SplitAt(buf, 0, HeaderSize + n, Overhead + n);
    SplitAt(buf, 0, Overhead + n, |buf|);
  }

  /** A slice splits at any point inside it. */
  lemma SplitAt<T>(s: seq<T>, i: nat, j: nat, k: nat)
    requires i <= j <= k <= |s|
    ensures s[i..k] == s[i..j] + s[j..k]
  {
  }

  /** A buffer from which a message was emitted holds a whole header that passes every check. */
  lemma EmittedHeaderOk(buf: seq<byte>, ck: Checksum, guarded: bool)
    requires |buf| > 0 && Parse(buf, ck, guarded).emitted.Some?
    ensures |buf| >= HeaderSize && HeaderPrefixOk(buf)
  {
    var h := ReadHeader(buf, guarded);
    ReadHeaderFields(buf, guarded);
  }

  /** The fields of a buffer from which a message was emitted, read back from its slices. */
  lemma EmittedFields(buf: seq<byte>, ck: Checksum, guarded: bool)
    requires |buf| > 0 && Parse(buf, ck, guarded).emitted.Some?
    ensures var a := Parse(buf, ck, guarded);
            var m := a.emitted.value;
            var n := |m.content|;
            && |buf| >= Overhead + n && HeaderPrefixOk(buf)
            && buf[8] == TypeCode(m.msgType) && m.instanceId == FromBE(buf[9..11]) && DeclaredLength(buf) == n
            && m.content == buf[HeaderSize..HeaderSize + n]
            && FromBE(buf[HeaderSize + n..Overhead + n]) == ck(m.content)
            && a.rest == buf[Overhead + n..]
  {
    EmittedHeaderOk(buf, ck, guarded);
    ParseAfterValidHeader(buf, ck, guarded);
    var n := DeclaredLength(buf);
    assert 0 <= n && Overhead + n <= |buf|;
  }

  /**
   * Whatever is emitted was framed: the consumed bytes are exactly the frame
   * of the emitted message, with a version of at most 1 and a stored checksum
   * equal to the checksum of the content.
   */
  lemma EmittedWasFramed(buf: seq<byte>, ck: Checksum, guarded: bool)
    requires |buf| > 0
    ensures var a := Parse(buf, ck, guarded);
            a.emitted.Some? ==>
              var m := a.emitted.value;
              && |buf| >= 8 && VersionField(buf) <= ProtocolVersion
              && buf == Layout(VersionField(buf), TypeCode(m.msgType), m.instanceId, |m.content|, m.content, ck(m.content)) + a.rest
  {
    var a := Parse(buf, ck, guarded);
    if a.emitted.Some? {
      var m := a.emitted.value;
      EmittedFields(buf, ck, guarded);
      FieldsFrame(buf, TypeCode(m.msgType), m.instanceId, m.content, ck(m.content));
    }
  }

  /** A buffer whose header passes and whose fields hold the given values starts with their frame. */
  lemma FieldsFrame(buf: seq<byte>, code: byte, id: u16, content: seq<byte>, cks: u16)
    requires |buf| >= Overhead + |content| && HeaderPrefixOk(buf)
    requires buf[8] == code && id == FromBE(buf[9..11]) && DeclaredLength(buf) == |content|
    requires content == buf[HeaderSize..HeaderSize + |content|]
    requires FromBE(buf[HeaderSize + |content|..Overhead + |content|]) == cks
    ensures VersionField(buf) <= ProtocolVersion
    ensures buf == Layout(VersionField(buf), code, id, |content|, content, cks) + buf[Overhead + |content|..]
  {
    Pow256Widths();
    var n := |content|;
    assert buf[..4] == Magic;
    assert FromBE(buf[11..HeaderSize]) == n;
    ToBEFromBE(buf[4..8]);
    ToBEFromBE(buf[9..11]);
    ToBEFromBE(buf[11..HeaderSize]);
    ToBEFromBE(buf[HeaderSize + n..Overhead + n]);
    HeaderFramedBy(buf, VersionField(buf), code, id, n);
    FramedBy(buf, VersionField(buf), code, id, content, cks);
  }

  /**
   * Round trip: the bytes sendMessage writes for an Acknowledge, NewInstance
   * or InstanceMessage, followed by anything, decode to the same message and
   * leave exactly the following bytes.
   */
  lemma SendThenDecode(t: MessageType, id: u16, content: seq<byte>, ck: Checksum, suffix: seq<byte>)
    requires Accepted(t) && |content| <= MaxContent
    ensures SendMessage(t, id, content, ck, true).ok
    ensures DecodeStep(SendMessage(t, id, content, ck, true).written + suffix, ck)
            == Attempt(Some(Message(t, id, content)), suffix, Committed)
  {
    FrameDecodes(ProtocolVersion, t, id, content, ck, suffix, false);
  }

  /**
   * The encoder writes PrimaryPidRequest and PrimaryUserRequest frames, but
   * the decoder never emits them: the attempt aborts after the type byte.
   */
  lemma RequestFramesNeverDecoded(t: MessageType, id: u16, content: seq<byte>, ck: Checksum, suffix: seq<byte>, guarded: bool)
    requires !Accepted(t) && |content| <= MaxContent
    ensures var buf := Encode(t, id, content, ck) + suffix;
            Parse(buf, ck, guarded) == Attempt(None, buf[9..], Aborted)
  {
    var frame := Encode(t, id, content, ck);
    var buf := frame + suffix;
    assert buf[..4] == frame[..4];
    assert buf[4..8] == frame[4..8];
    AcceptedTypeOfCode(t);
    UnacceptedTypeRejected(buf, ck, guarded);
  }

  /** The header checks that pass on a buffer pass on each of its prefixes. */
  lemma PrefixHeaderOk(buf: seq<byte>, k: nat)
    requires HeaderPrefixOk(buf) && k <= |buf|
    ensures HeaderPrefixOk(buf[..k])
  {
    var p := buf[..k];
    if k >= 8 { assert p[4..8] == buf[4..8]; }
    if k >= HeaderSize { assert p[11..HeaderSize] == buf[11..HeaderSize]; }
  }

  /** A well-formed frame passes every header check. */
  lemma FrameHeaderOk(v: nat, t: MessageType, id: u16, content: seq<byte>, cks: u16)
    requires v <= ProtocolVersion && Accepted(t) && |content| <= MaxContent
    ensures HeaderPrefixOk(Layout(v, TypeCode(t), id, |content|, content, cks))
    ensures DeclaredLength(Layout(v, TypeCode(t), id, |content|, content, cks)) == |content|
  {
    var frame := Layout(v, TypeCode(t), id, |content|, content, cks);
    FrameFields(v, TypeCode(t), id, content, cks, []);
    assert frame + [] == frame;
    AcceptedTypeOfCode(t);
  }

  /**
   * As written, an attempt on one to three buffered bytes always aborts
   * without a message: a byte that has not arrived reads as 0 and fails a
   * magic check, if a present one has not failed first. The abort consumes
   * the bytes read up to the failed check, so a buffer holding the start of
   * the magic is dropped whole.
   */
  lemma ShortBufferDiscarded(buf: seq<byte>, ck: Checksum)
    requires 0 < |buf| < 4
    ensures DecodeStep(buf, ck).emitted == None && DecodeStep(buf, ck).ended == Aborted
    ensures buf == Magic[..|buf|] ==> DecodeStep(buf, ck) == Attempt(None, [], Aborted)
  {
    assert ReadMagic(buf, false).Done?;
  }

  /**
   * The counterexample: when the first byte of a frame arrives on its own, the
   * attempt drops it, and the attempt on the rest of the frame then fails the
   * first magic check. The frame is never emitted.
   */
  lemma FrameSplitAfterFirstByteIsLost(t: MessageType, id: u16, content: seq<byte>, ck: Checksum, suffix: seq<byte>)
    requires |content| <= MaxContent
    ensures var frame := Encode(t, id, content, ck);
            && DecodeStep(frame[..1], ck) == Attempt(None, [], Aborted)
            && DecodeStep(frame[1..] + suffix, ck) == Attempt(None, frame[2..] + suffix, Aborted)
  {
    MagicSplitAfterFirstByte(Encode(t, id, content, ck), ck, suffix);
  }

  /** Any bytes that start with the magic, split after their first byte, as written. */
  lemma MagicSplitAfterFirstByte(frame: seq<byte>, ck: Checksum, suffix: seq<byte>)
    requires |frame| >= 4 && frame[..4] == Magic
    ensures DecodeStep(frame[..1], ck) == Attempt(None, [], Aborted)
    ensures DecodeStep(frame[1..] + suffix, ck) == Attempt(None, frame[2..] + suffix, Aborted)
  {
    assert frame[..1] == Magic[..1];
    ShortBufferDiscarded(frame[..1], ck);
    var later := frame[1..] + suffix;
    assert later[0] == frame[1] == Magic[1];
    assert MagicFailsAt(later, 0);
    WrongMagicRejected(later, ck, false, 0);
    assert later[1..] == frame[2..] + suffix;
  }

  /**
   * As written, a buffer of 4 to 18 bytes whose present header fields pass
   * is kept: the zero-filled fields pass their checks too (0 is
   * Acknowledge), and the content read then rolls the transaction back.
   */
  lemma WrittenKeepsShortHeader(buf: seq<byte>, ck: Checksum)
    requires 4 <= |buf| < HeaderSize && HeaderPrefixOk(buf)
    ensures DecodeStep(buf, ck) == Attempt(None, buf, RolledBack)
  {
    assert buf[..4] == Magic;
    var s := ReadMagic(buf, false);
    var s2 := ReadVersionType(s.r, false);
    assert s2.Next?;
    var h := ReadIdLength(s2.value, s2.r, false);
    assert h.Header? && h.r.status == ReadPastEnd;
    assert buf[0..] == buf;
  }

  /**
   * Guarded, every buffer shorter than a header whose present fields pass
   * is kept whole: the first read that runs past the end rolls back.
   */
  lemma GuardedKeepsShortHeader(buf: seq<byte>, ck: Checksum)
    requires 0 < |buf| < HeaderSize && HeaderPrefixOk(buf)
    ensures DecodeStepGuarded(buf, ck) == Attempt(None, buf, RolledBack)
  {
    if |buf| < 4 {
      assert buf == Magic[..|buf|];
      assert ReadMagic(buf, true).Done?;
    } else {
      assert buf[..4] == Magic;
      var s := ReadMagic(buf, true);
      if |buf| >= 9 {
        var s2 := ReadVersionType(s.r, true);
        assert s2.Next? && s2.r.status == Ok;
      }
    }
    assert ReadHeader(buf, true).Stopped?;
  }

  /** A proper prefix of a well-formed frame: the header checks pass on what is there. */
  lemma FramePrefixOk(v: nat, t: MessageType, id: u16, content: seq<byte>, cks: u16, k: nat)
    requires v <= ProtocolVersion && Accepted(t) && |content| <= MaxContent
    requires k < Overhead + |content|
    ensures var p := Layout(v, TypeCode(t), id, |content|, content, cks)[..k];
            && HeaderPrefixOk(p)
            && (k >= HeaderSize ==> DeclaredLength(p) == |content| && |p| < Overhead + DeclaredLength(p))
  {
    var frame := Layout(v, TypeCode(t), id, |content|, content, cks);
    var p := frame[..k];
    FrameHeaderOk(v, t, id, content, cks);
    PrefixHeaderOk(frame, k);
    if k >= HeaderSize {
      assert p[11..HeaderSize] == frame[11..HeaderSize];
    }
  }

  /**
   * As written, an attempt on a frame prefix of at least four bytes rolls
   * back: the prefix is kept for a later attempt. Whether that attempt ever
   * sees more bytes depends on the loop around it (see DecodeLoop).
   */
  lemma PrefixFromFourBytesKept(v: nat, t: MessageType, id: u16, content: seq<byte>, ck: Checksum, k: nat)
    requires v <= ProtocolVersion && Accepted(t) && |content| <= MaxContent
    requires 4 <= k < Overhead + |content|
    ensures var p := Layout(v, TypeCode(t), id, |content|, content, ck(content))[..k];
            DecodeStep(p, ck) == Attempt(None, p, RolledBack)
  {
    var p := Layout(v, TypeCode(t), id, |content|, content, ck(content))[..k];
    FramePrefixOk(v, t, id, content, ck(content), k);
    if k >= HeaderSize {
      ShortBodyRolledBack(p, ck, false);
    } else {
      WrittenKeepsShortHeader(p, ck);
    }
  }

  /**
   * The corrected attempt rolls back on every proper prefix of a
   * well-formed frame, keeping all its bytes for a later attempt. A frame
   * delivered in pieces is decoded only if the loop returns after that
   * rollback and resumes once more bytes have arrived (DecodeLoop.Drain).
   */
  lemma GuardedKeepsPartialFrames(v: nat, t: MessageType, id: u16, content: seq<byte>, ck: Checksum, k: nat)
    requires v <= ProtocolVersion && Accepted(t) && |content| <= MaxContent
    requires 0 < k < Overhead + |content|
    ensures var p := Layout(v, TypeCode(t), id, |content|, content, ck(content))[..k];
            DecodeStepGuarded(p, ck) == Attempt(None, p, RolledBack)
  {
    var p := Layout(v, TypeCode(t), id, |content|, content, ck(content))[..k];
    FramePrefixOk(v, t, id, content, ck(content), k);
    if k >= HeaderSize {
      ShortBodyRolledBack(p, ck, true);
    } else {
      GuardedKeepsShortHeader(p, ck);
    }
  }

  /** The two attempts differ only on buffers shorter than a header. */
  lemma GuardedAgreesOnWholeHeaders(buf: seq<byte>, ck: Checksum)
    requires |buf| >= HeaderSize
    ensures DecodeStepGuarded(buf, ck) == DecodeStep(buf, ck)
  {
    var s, s' := ReadMagic(buf, true), ReadMagic(buf, false);
    assert s == s';
    if s.Next? {
      var v, v' := ReadVersionType(s.r, true), ReadVersionType(s.r, false);
      assert v == v';
      if v.Next? {
        assert ReadIdLength(v.value, v.r, true) == ReadIdLength(v.value, v.r, false);
      }
    }
  }
}

/**
 * The frame codec of MessageCoder: the encoder behind sendMessage and one
 * iteration of the decoding loop in slotDataAvailable.
 *
 * A frame is, with every integer big-endian:
 *   magic 00 01 00 02 | version (4) | type (1) | instance id (2) |
 *   content length (8, signed) | content | checksum of the content (2)
 */
module MessageCoder {
  import opened Wrappers
  import opened Bytes
  import opened DataStream

  /** The largest content a frame may carry: 1 MiB. */
  const MaxContent: nat := 1024 * 1024

  /** The protocol version the encoder writes and the highest one the decoder accepts. */
  const ProtocolVersion: nat := 1

  /** The magic number 0x00010002, written as one big-endian 32-bit integer. */
  const Magic: seq<byte> := [0x00, 0x01, 0x00, 0x02]

  /** magic (4) + version (4) + type (1) + instance id (2) + content length (8). */
  const HeaderSize: nat := 19

  /** The header plus the trailing 16-bit checksum. */
  const Overhead: nat := 21

  datatype MessageType = Acknowledge | NewInstance | InstanceMessage | PrimaryPidRequest | PrimaryUserRequest

  /** The byte the encoder writes for a type: the enumeration's ordinal. */
  function TypeCode(t: MessageType): byte
  {
    match t
    case Acknowledge => 0
    case NewInstance => 1
    case InstanceMessage => 2
    case PrimaryPidRequest => 3
    case PrimaryUserRequest => 4
  }

  /** The types the decoder lets through; the two request types are never decoded. */
  predicate Accepted(t: MessageType)
  {
    t.Acknowledge? || t.NewInstance? || t.InstanceMessage?
  }

  /** The decoder's switch on the type byte: only the three accepted types pass. */
  function AcceptedType(code: nat): (t: Option<MessageType>)
    ensures t.Some? ==> Accepted(t.value) && TypeCode(t.value) == code
    ensures t.None? ==> forall m: MessageType :: Accepted(m) ==> TypeCode(m) != code
  {
    if code == 0 then Some(Acknowledge)
    else if code == 1 then Some(NewInstance)
    else if code == 2 then Some(InstanceMessage)
    else None
  }

  /** A message as the decoder emits it. */
  datatype Message = Message(msgType: MessageType, instanceId: u16, content: seq<byte>)

  /** qChecksum over a byte string; the codec only ever applies it to the content. */
  type Checksum = seq<byte> -> u16

  /** The 19 header bytes with the given field values. */
  function HeaderBytes(version: nat, code: byte, id: u16, length: nat): (header: seq<byte>)
    requires version < 0x1_0000_0000 && length < 0x1_0000_0000_0000_0000
    ensures |header| == HeaderSize
  {
    Pow256Widths();
    Magic + ToBE(version, 4) + [code] + ToBE(id, 2) + ToBE(length, 8)
  }

  /** The bytes of a frame with the given field values. */
  function Layout(version: nat, code: byte, id: u16, length: nat, content: seq<byte>, checksum: u16): (frame: seq<byte>)
    requires version < 0x1_0000_0000 && length < 0x1_0000_0000_0000_0000
    ensures |frame| == Overhead + |content|
    ensures frame[..4] == Magic
    ensures frame[4..8] == ToBE(version, 4)
    ensures frame[8] == code
    ensures frame[9..11] == ToBE(id, 2)
    ensures frame[11..HeaderSize] == ToBE(length, 8)
    ensures frame[HeaderSize..HeaderSize + |content|] == content
    ensures frame[HeaderSize + |content|..] == ToBE(checksum, 2)
  {
    Pow256Widths();
    HeaderBytes(version, code, id, length) + content + ToBE(checksum, 2)
  }

  /**
   * The frame sendMessage writes: 21 bytes more than the content, the magic,
   * version 1, the type's ordinal, the instance id, the content length, the
   * content, and the checksum of the content alone.
   */
  function Encode(t: MessageType, id: u16, content: seq<byte>, ck: Checksum): (frame: seq<byte>)
    requires |content| <= MaxContent
    ensures |frame| == Overhead + |content|
    ensures frame[..4] == Magic
    ensures FromBE(frame[4..8]) == ProtocolVersion
    ensures frame[8] == TypeCode(t)
    ensures FromBE(frame[9..11]) == id
    ensures FromBE(frame[11..HeaderSize]) == |content|
    ensures frame[HeaderSize..HeaderSize + |content|] == content
    ensures FromBE(frame[HeaderSize + |content|..]) == ck(content)
  {
    Pow256Widths();
    FromBEToBE(ProtocolVersion, 4);
    FromBEToBE(id, 2);
    FromBEToBE(|content|, 8);
    FromBEToBE(ck(content), 2);
    Layout(ProtocolVersion, TypeCode(t), id, |content|, content, ck(content))
  }

  /** What sendMessage reports and what reaches the socket. */
  datatype Sent = Sent(ok: bool, written: seq<byte>)

  /**
   * sendMessage: content over 1 MiB is refused before anything is written;
   * otherwise the frame is written, and the call reports success exactly when
   * the stream's status is still Ok. `deviceOpen` stands for the socket
   * accepting writes; a stream over a device that refuses them writes nothing
   * and ends WriteFailed.
   */
  function SendMessage(t: MessageType, id: u16, content: seq<byte>, ck: Checksum, deviceOpen: bool): (s: Sent)
    ensures s.ok <==> |content| <= MaxContent && deviceOpen
    ensures s.ok ==> s.written == Encode(t, id, content, ck)
    ensures !s.ok ==> s.written == []
  {
    if |content| > MaxContent then
      Sent(false, [])
    else
      var status := if deviceOpen then Ok else WriteFailed;
      Sent(status == Ok, if deviceOpen then Encode(t, id, content, ck) else [])
  }

  /** One decode attempt as seen from outside: the message emitted, the bytes left, how it ended. */
  datatype Attempt = Attempt(emitted: Option<Message>, rest: seq<byte>, ended: Closing)

  /** Where the header reads stop: rejected (aborted), stopped short (rolled back), or a header. */
  datatype HeaderRead =
    | Rejected(r: Reader)
    | Stopped(r: Reader)
    | Header(msgType: MessageType, id: u16, length: int, r: Reader)

  /** The decoded version field of a buffer holding at least 8 bytes. */
  function VersionField(buf: seq<byte>): nat
    requires |buf| >= 8
  {
    FromBE(buf[4..8])
  }

  /** The declared (signed 64-bit) content length of a buffer holding a whole header. */
  function DeclaredLength(buf: seq<byte>): int
    requires |buf| >= HeaderSize
  {
    Pow256Widths();
    Signed64(FromBE(buf[11..HeaderSize]))
  }

  /** The checks of the header fields wholly present in buf all pass. */
  predicate HeaderPrefixOk(buf: seq<byte>)
  {
    && (|buf| > 0 ==> buf[0] == Magic[0])
    && (|buf| > 1 ==> buf[1] == Magic[1])
    && (|buf| > 2 ==> buf[2] == Magic[2])
    && (|buf| > 3 ==> buf[3] == Magic[3])
    && (|buf| >= 8 ==> VersionField(buf) <= ProtocolVersion)
    && (|buf| >= 9 ==> AcceptedType(buf[8]).Some?)
    && (|buf| >= HeaderSize ==> DeclaredLength(buf) <= MaxContent)
  }

  /**
   * After one header read: when `guarded`, a read that ran past the end rolls
   * the transaction back; otherwise (and in the code as written) only a
   * failed check stops the attempt, by aborting it.
   */
  function Gate(r: Reader, guarded: bool, fails: bool): (g: Option<HeaderRead>)
    requires r.Valid() && r.txn
    ensures guarded && r.status == ReadPastEnd ==>
              g.Some? && g.value.Stopped? && g.value.r.pos == r.restore && g.value.r.ended == Some(RolledBack)
    ensures !(guarded && r.status == ReadPastEnd) && fails ==>
              g.Some? && g.value.Rejected? && g.value.r.pos == r.pos && g.value.r.ended == Some(Aborted)
    ensures !(guarded && r.status == ReadPastEnd) && !fails ==> g.None?
    ensures g.Some? ==> g.value.r.Valid() && g.value.r.buf == r.buf && g.value.r.restore == r.restore && !g.value.r.txn
  {
    if guarded && r.status == ReadPastEnd then Some(Stopped(RollbackTransaction(r)))
    else if fails then Some(Rejected(AbortTransaction(r)))
    else None
  }

  /** A header read that ended the attempt, as ReadHeader promises it. */
  predicate Ended(h: HeaderRead, buf: seq<byte>, guarded: bool)
  {
    && h.r.Valid() && h.r.buf == buf && h.r.restore == 0 && !h.Header?
    && (h.Rejected? ==> !h.r.txn && h.r.ended == Some(Aborted) && h.r.pos > 0)
    && (h.Stopped? ==> guarded && !h.r.txn && h.r.ended == Some(RolledBack) && h.r.pos == 0)
  }

  /** Either the attempt ended during a header stage, or it goes on with a value and a reader. */
  datatype Stage<T> = Done(h: HeaderRead) | Next(value: T, r: Reader)

  /**
   * Start a transaction and check the four magic bytes one at a time. As
   * written, a buffer of fewer than four bytes never gets past this stage:
   * the missing bytes read as 0 and fail a check.
   */
  function ReadMagic(buf: seq<byte>, guarded: bool): (s: Stage<()>)
    requires |buf| > 0
    ensures s.Done? ==> Ended(s.h, buf, guarded)
    ensures s.Done? && s.h.Stopped? ==> |buf| < 4
    ensures s.Next? ==> s.r.Valid() && s.r.txn && s.r.buf == buf && s.r.restore == 0
    ensures s.Next? ==> s.r.status == Ok && |buf| >= 4 && s.r.pos == 4 && buf[..4] == Magic
    ensures |buf| >= 4 && buf[..4] == Magic ==> s.Next?
    ensures !guarded && |buf| < 4 ==> s.Done? && s.h.Rejected?
    ensures guarded && |buf| < 4 && buf == Magic[..|buf|] ==> s.Done? && s.h.Stopped?
  {
    var m0 := ReadByte(StartTransaction(Open(buf)));
    var g0 := Gate(m0.next, guarded, m0.value != Magic[0]);
    if g0.Some? then Done(g0.value) else
    var m1 := ReadByte(m0.next);
    var g1 := Gate(m1.next, guarded, m1.value != Magic[1]);
    if g1.Some? then Done(g1.value) else
    var m2 := ReadByte(m1.next);
    var g2 := Gate(m2.next, guarded, m2.value != Magic[2]);
    if g2.Some? then Done(g2.value) else
    var m3 := ReadByte(m2.next);
    var g3 := Gate(m3.next, guarded, m3.value != Magic[3]);
    if g3.Some? then Done(g3.value) else
    Next((), m3.next)
  }

  /**
   * Read and check the version (at most 1) and the type byte (Acknowledge,
   * NewInstance or InstanceMessage only).
   */
  function ReadVersionType(r: Reader, guarded: bool): (s: Stage<MessageType>)
    requires r.Valid() && r.txn && r.restore == 0 && r.status == Ok && r.pos == 4
    ensures s.Done? ==> Ended(s.h, r.buf, guarded)
    ensures s.Done? && s.h.Stopped? ==> |r.buf| < 9
    ensures s.Next? ==> s.r.Valid() && s.r.txn && s.r.buf == r.buf && s.r.restore == 0 && s.r.pos > 0
    ensures s.Next? ==> Accepted(s.value)
    ensures s.Next? && s.r.status == Ok ==>
              |r.buf| >= 9 && s.r.pos == 9 && VersionField(r.buf) <= ProtocolVersion && Some(s.value) == AcceptedType(r.buf[8])
    ensures s.Next? && s.r.status != Ok ==> !guarded && |r.buf| < 9 && s.r.status == ReadPastEnd
    ensures |r.buf| >= 8 && VersionField(r.buf) > ProtocolVersion ==> s.Done? && s.h.Rejected? && s.h.r.pos == 8
    ensures |r.buf| >= 9 && VersionField(r.buf) <= ProtocolVersion && AcceptedType(r.buf[8]).None? ==>
              s.Done? && s.h.Rejected? && s.h.r.pos == 9
    ensures |r.buf| >= 9 && VersionField(r.buf) <= ProtocolVersion && AcceptedType(r.buf[8]).Some? ==>
              s.Next? && s.r.status == Ok
    ensures |r.buf| < 9 && (|r.buf| == 8 ==> VersionField(r.buf) <= ProtocolVersion) ==>
              if guarded then s.Done? && s.h.Stopped? else s.Next?
  {
    var version := ReadInt(r, 4);
    var g4 := Gate(version.next, guarded, version.value > ProtocolVersion);
    if g4.Some? then Done(g4.value) else
    var code := ReadByte(version.next);
    var t := AcceptedType(code.value);
    var g5 := Gate(code.next, guarded, t.None?);
    if g5.Some? then Done(g5.value) else
    Next(t.value, code.next)
  }

  /** Read the instance id and the signed length, and check the length (at most 1 MiB). */
  function ReadIdLength(t: MessageType, r: Reader, guarded: bool): (h: HeaderRead)
    requires r.Valid() && r.txn && r.restore == 0 && r.pos > 0
    requires r.status == Ok ==> r.pos == 9
    requires r.status != Ok ==> !guarded && |r.buf| < 9 && r.status == ReadPastEnd
    ensures !h.Header? ==> Ended(h, r.buf, guarded)
    ensures h.Stopped? ==> |r.buf| < HeaderSize
    ensures h.Header? ==> h.r.Valid() && h.r.txn && h.r.buf == r.buf && h.r.restore == 0 && h.r.pos > 0
    ensures h.Header? ==> h.msgType == t && h.length <= MaxContent
    ensures h.Header? && h.r.status == Ok ==>
              && |r.buf| >= HeaderSize && h.r.pos == HeaderSize
              && h.id == FromBE(r.buf[9..11]) && h.length == DeclaredLength(r.buf)
    ensures h.Header? && h.r.status != Ok ==> !guarded && |r.buf| < HeaderSize && h.r.status == ReadPastEnd
    ensures r.status == Ok && |r.buf| >= HeaderSize ==>
              if DeclaredLength(r.buf) > MaxContent then h.Rejected? && h.r.pos == HeaderSize
              else h.Header? && h.r.status == Ok
    ensures |r.buf| < HeaderSize ==> if guarded then h.Stopped? else h.Header?
  {
    Pow256Widths();
    var id := ReadInt(r, 2);
    var g6 := Gate(id.next, guarded, false);
    if g6.Some? then g6.value else
    var length := ReadInt(id.next, 8);
    var declared := Signed64(length.value);
    var g7 := Gate(length.next, guarded, declared > MaxContent);
    if g7.Some? then g7.value else
    Header(t, id.value, declared, length.next)
  }

  /**
   * The header part of one attempt: start a transaction, then read and check
   * each magic byte, the version, the type, the instance id and the length,
   * aborting at the first failed check.
   */
  function ReadHeader(buf: seq<byte>, guarded: bool): (h: HeaderRead)
    requires |buf| > 0
    ensures !h.Header? ==> Ended(h, buf, guarded)
    ensures h.Stopped? ==> |buf| < HeaderSize
    ensures h.Header? ==> h.r.Valid() && h.r.txn && h.r.buf == buf && h.r.restore == 0 && h.r.pos > 0
    ensures h.Header? ==> Accepted(h.msgType) && h.length <= MaxContent
    ensures h.Header? && h.r.status == Ok ==> |buf| >= HeaderSize && h.r.pos == HeaderSize
    ensures h.Header? && h.r.status != Ok ==> !guarded && |buf| < HeaderSize && h.r.status == ReadPastEnd
  {
    match ReadMagic(buf, guarded)
    case Done(h) => h
    case Next(_, r) =>
      match ReadVersionType(r, guarded)
      case Done(h) => h
      case Next(t, r') => ReadIdLength(t, r', guarded)
  }

  /**
   * A header read with status Ok passed every header check, and its fields
   * are the big-endian values at their offsets.
   */
  lemma ReadHeaderFields(buf: seq<byte>, guarded: bool)
    requires |buf| > 0
    ensures var h := ReadHeader(buf, guarded);
            h.Header? && h.r.status == Ok ==>
              && HeaderPrefixOk(buf)
              && Some(h.msgType) == AcceptedType(buf[8])
              && h.id == FromBE(buf[9..11])
              && h.length == DeclaredLength(buf)
  {
  }

  /** The observable end of an attempt whose transaction has been closed. */
  function Close(emitted: Option<Message>, r: Reader): (a: Attempt)
    requires r.Valid() && r.ended.Some?
    ensures a.emitted == emitted && a.rest == r.Remaining() && a.ended == r.ended.value
  {
    Attempt(emitted, r.Remaining(), r.ended.value)
  }

  /** What the decoder does with the open transaction after a read. */
  datatype Action = Keep | Rollback | Abort

  /** The switch on the status after readRawData returned -1. */
  function AfterFailedRead(s: Status): (a: Action)
    ensures a != Keep
    ensures a == Rollback <==> s == ReadPastEnd
  {
    match s
    case ReadPastEnd => Rollback
    case ReadCorruptData => Abort
    case _ => Abort
  }

  /** The switch on the status after readRawData returned fewer bytes than asked. */
  function AfterShortRead(s: Status): (a: Action)
    ensures a != Keep
    ensures a == Rollback <==> s == ReadPastEnd
  {
    match s
    case Ok => Abort
    case ReadPastEnd => Rollback
    case ReadCorruptData => Abort
    case _ => Abort
  }

  /** The switch on the status after the checksum read; it has no `continue`. */
  function AfterChecksumRead(s: Status): (a: Action)
    ensures a == Keep <==> s == Ok
    ensures a == Rollback <==> s == ReadPastEnd
  {
    match s
    case Ok => Keep
    case ReadPastEnd => Rollback
    case ReadCorruptData => Abort
    case _ => Abort
  }

  function Apply(a: Action, r: Reader): (r': Reader)
    requires r.Valid()
    ensures r'.Valid() && r'.buf == r.buf
    ensures a == Keep ==> r' == r
    ensures a == Rollback ==> r' == RollbackTransaction(r)
    ensures a == Abort ==> r' == AbortTransaction(r)
  {
    match a
    case Keep => r
    case Rollback => RollbackTransaction(r)
    case Abort => AbortTransaction(r)
  }

  /**
   * The rest of one attempt, after a header: read the content and the
   * checksum, roll back when the stream ends inside either, abort on a
   * checksum mismatch, and emit the message only when the commit succeeds.
   * After the checksum read's rollback the comparison still runs, on a
   * checksum read as 0, and then finds no transaction left to end.
   */
  function ReadBody(t: MessageType, id: u16, length: int, r: Reader, ck: Checksum): (a: Attempt)
    requires r.Valid() && r.txn
    ensures |a.rest| <= |r.buf| - r.restore && a.rest == r.buf[|r.buf| - |a.rest|..]
    ensures a.ended == RolledBack ==> a.rest == r.buf[r.restore..]
    ensures a.ended == Aborted ==> |a.rest| <= |r.buf| - r.pos
    ensures a.emitted.Some? ==>
              && a.ended == Committed && r.status == Ok && 0 <= length && r.pos + length + 2 <= |r.buf|
              && a.emitted.value.msgType == t && |a.emitted.value.content| == length
              && |a.rest| == |r.buf| - r.pos - length - 2
    ensures r.status == ReadPastEnd || (r.status == Ok && (length < -1 || (0 <= length && r.pos + length + 2 > |r.buf|))) ==>
              a == Attempt(None, r.buf[r.restore..], RolledBack)
    ensures r.status == Ok && length == -1 ==> a == Attempt(None, r.buf[r.pos..], Aborted)
    ensures r.status == Ok && 0 <= length && r.pos + length + 2 <= |r.buf| ==>
              var content := r.buf[r.pos..r.pos + length];
              var stored := FromBE(r.buf[r.pos + length..r.pos + length + 2]);
              var rest := r.buf[r.pos + length + 2..];
              a == if stored == ck(content) then Attempt(Some(Message(t, id, content)), rest, Committed)
                   else Attempt(None, rest, Aborted)
  {
    var raw := ReadBlock(r, length);
    if raw.count == -1 || raw.count != length then ContentCut(r, raw, length)
    else ReadChecksum(t, id, raw.data, raw.next, ck)
  }

  /**
   * The content read came back short or failed: the switch on the status
   * rolls back when the stream ran past the end and aborts otherwise. A
   * declared length of -1 is answered with -1 and status Ok, and so aborts.
   */
  function ContentCut(r: Reader, raw: Block, length: int): (a: Attempt)
    requires r.Valid() && r.txn && raw == ReadBlock(r, length) && (raw.count == -1 || raw.count != length)
    ensures a.emitted.None? && a.ended != Committed
    ensures |a.rest| <= |r.buf| - r.restore && a.rest == r.buf[|r.buf| - |a.rest|..]
    ensures a.ended == RolledBack ==> a.rest == r.buf[r.restore..]
    ensures a.ended == Aborted ==> |a.rest| <= |r.buf| - r.pos
    ensures r.status == ReadPastEnd || (r.status == Ok && (length < -1 || (0 <= length && r.pos + length > |r.buf|))) ==>
              a == Attempt(None, r.buf[r.restore..], RolledBack)
    ensures r.status == Ok && length == -1 ==> a == Attempt(None, r.buf[r.pos..], Aborted)
  {
    if raw.count == -1 then
      Close(None, Apply(AfterFailedRead(raw.next.status), raw.next))
    else
      Close(None, Apply(AfterShortRead(raw.next.status), raw.next))
  }

  /**
   * After the whole content: read the stored checksum, compare it with the
   * checksum of the content, and commit or abort. A checksum cut short rolls
   * the transaction back before the comparison.
   */
  function ReadChecksum(t: MessageType, id: u16, content: seq<byte>, r: Reader, ck: Checksum): (a: Attempt)
    requires r.Valid() && r.txn && r.status == Ok
    ensures |a.rest| <= |r.buf| - r.restore && a.rest == r.buf[|r.buf| - |a.rest|..]
    ensures a.ended == RolledBack ==> a.rest == r.buf[r.restore..]
    ensures a.ended == Aborted ==> |a.rest| <= |r.buf| - r.pos
    ensures a.emitted.Some? ==>
              && a.ended == Committed && r.pos + 2 <= |r.buf|
              && a.emitted.value == Message(t, id, content) && |a.rest| == |r.buf| - r.pos - 2
    ensures r.pos + 2 > |r.buf| ==> a == Attempt(None, r.buf[r.restore..], RolledBack)
    ensures r.pos + 2 <= |r.buf| ==>
              var rest := r.buf[r.pos + 2..];
              a == if FromBE(r.buf[r.pos..r.pos + 2]) == ck(content) then Attempt(Some(Message(t, id, content)), rest, Committed)
                   else Attempt(None, rest, Aborted)
  {
    var stored := ReadInt(r, 2);
    var r1 := Apply(AfterChecksumRead(stored.next.status), stored.next);
    if stored.value != ck(content) then
      Close(None, AbortTransaction(r1))
    else
      var c := CommitTransaction(r1);
      if c.ok then Close(Some(Message(t, id, content)), c.next) else Close(None, c.next)
  }

  /**
   * What every attempt promises about the buffer it ran on: the bytes left
   * are a suffix of it; a rollback leaves it whole and happens only when the
   * bytes run out (no whole header, a declared length below -1, or fewer
   * bytes than the announced frame); any other end drops at least one byte; and a
   * message is emitted only by a commit that consumed exactly its frame.
   */
  predicate Outcome(buf: seq<byte>, a: Attempt)
  {
    && |a.rest| <= |buf| && a.rest == buf[|buf| - |a.rest|..]
    && (a.ended == RolledBack ==> a.rest == buf)
    && (a.ended == RolledBack ==> |buf| < HeaderSize || DeclaredLength(buf) < -1 || (0 <= DeclaredLength(buf) && |buf| < Overhead + DeclaredLength(buf)))
    && (a.ended != RolledBack ==> |a.rest| < |buf|)
    && (a.emitted.Some? ==>
          && a.ended == Committed
          && Accepted(a.emitted.value.msgType)
          && |a.emitted.value.content| <= MaxContent
          && |buf| == Overhead + |a.emitted.value.content| + |a.rest|)
  }

  /** One attempt, with or without the short-read guard on the header reads. */
  function Parse(buf: seq<byte>, ck: Checksum, guarded: bool): (a: Attempt)
    requires |buf| > 0
    ensures Outcome(buf, a)
  {
    var h := ReadHeader(buf, guarded);
    ReadHeaderFields(buf, guarded);
    if !h.Header? then HeaderEnded(h, buf, guarded) else AfterHeader(buf, h, ck)
  }

  /** An attempt that ended during the header reads: nothing emitted, rolled back or aborted. */
  function HeaderEnded(h: HeaderRead, buf: seq<byte>, guarded: bool): (a: Attempt)
    requires Ended(h, buf, guarded) && (h.Stopped? ==> |buf| < HeaderSize)
    ensures a.emitted.None? && a.ended != Committed
    ensures h.Stopped? ==> a == Attempt(None, buf, RolledBack)
    ensures h.Rejected? ==> a.ended == Aborted
    ensures Outcome(buf, a)
  {
    assert buf[0..] == buf;
    Close(None, h.r)
  }

  /** The body reads after a header, seen from the whole buffer. */
  function AfterHeader(buf: seq<byte>, h: HeaderRead, ck: Checksum): (a: Attempt)
    requires h.Header? && h.r.Valid() && h.r.txn && h.r.buf == buf && h.r.restore == 0 && h.r.pos > 0
    requires Accepted(h.msgType) && h.length <= MaxContent
    requires h.r.status == Ok ==> h.r.pos == HeaderSize && |buf| >= HeaderSize && h.length == DeclaredLength(buf)
    requires h.r.status != Ok ==> h.r.status == ReadPastEnd && |buf| < HeaderSize
    ensures Outcome(buf, a)
  {
    if h.r.status != Ok || h.length < -1 || (0 <= h.length && |buf| < Overhead + h.length) then
      assert buf[0..] == buf;
      ReadBody(h.msgType, h.id, h.length, h.r, ck)
    else
      ReadBody(h.msgType, h.id, h.length, h.r, ck)
  }

  /**
   * One iteration of the decoding loop of slotDataAvailable, on the bytes the
   * socket holds (the loop runs only while there is at least one). The
   * remaining bytes are always a suffix of the input: a rollback leaves them
   * all, any other end drops at least one, and a message is emitted only by a
   * commit that consumed exactly its 21 + |content| byte frame.
   */
  function DecodeStep(buf: seq<byte>, ck: Checksum): (a: Attempt)
    requires |buf| > 0
    ensures |a.rest| <= |buf| && a.rest == buf[|buf| - |a.rest|..]
    ensures a.ended == RolledBack ==> a.rest == buf
    ensures a.ended == RolledBack ==> |buf| < HeaderSize || DeclaredLength(buf) < -1 || (0 <= DeclaredLength(buf) && |buf| < Overhead + DeclaredLength(buf))
    ensures a.ended != RolledBack ==> |a.rest| < |buf|
    ensures a.emitted.Some? ==>
              && a.ended == Committed
              && Accepted(a.emitted.value.msgType)
              && |a.emitted.value.content| <= MaxContent
              && |buf| == Overhead + |a.emitted.value.content| + |a.rest|
  {
    Parse(buf, ck, false)
  }

  /**
   * The attempt with every header read guarded: a header read that runs past
   * the end of the buffered bytes rolls the transaction back instead of
   * checking a zero-filled field.
   */
  function DecodeStepGuarded(buf: seq<byte>, ck: Checksum): (a: Attempt)
    requires |buf| > 0
    ensures |a.rest| <= |buf| && a.rest == buf[|buf| - |a.rest|..]
    ensures a.ended == RolledBack ==> a.rest == buf
    ensures a.ended == RolledBack ==> |buf| < HeaderSize || DeclaredLength(buf) < -1 || (0 <= DeclaredLength(buf) && |buf| < Overhead + DeclaredLength(buf))
    ensures a.ended != RolledBack ==> |a.rest| < |buf|
    ensures a.emitted.Some? ==>
              && a.ended == Committed
              && Accepted(a.emitted.value.msgType)
              && |a.emitted.value.content| <= MaxContent
              && |buf| == Overhead + |a.emitted.value.content| + |a.rest|
  {
    Parse(buf, ck, true)
  }
}

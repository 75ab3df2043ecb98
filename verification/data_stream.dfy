/**
 * A read-only QDataStream over the bytes a socket has buffered, with the
 * stream's read transactions (startTransaction, commitTransaction,
 * rollbackTransaction, abortTransaction).
 *
 * The record holds the buffered bytes, the read position, the restore point
 * taken when the transaction started, whether a transaction is open, the
 * stream status, and how the last transaction ended (an observation the
 * stream itself does not keep; it lets contracts say which way an attempt
 * was closed).
 */
module DataStream {
  import opened Wrappers
  import opened Bytes

  /** QDataStream::Status. */
  datatype Status = Ok | ReadPastEnd | ReadCorruptData | WriteFailed

  /** How a read transaction ended: the bytes read are kept (commit, abort) or given back. */
  datatype Closing = Committed | RolledBack | Aborted

  datatype Reader = Reader(buf: seq<byte>, pos: nat, restore: nat, txn: bool, status: Status, ended: Option<Closing>)
  {
    /** Positions lie inside the buffer; an open transaction has not ended yet. */
    predicate Valid() {
      restore <= pos <= |buf| && (txn ==> ended.None?)
    }

    /** The bytes still buffered, i.e. not consumed. */
    function Remaining(): (rest: seq<byte>)
      requires Valid()
      ensures |rest| == |buf| - pos
    {
      buf[pos..]
    }

    /** QDataStream::setStatus: a status other than Ok is never overwritten. */
    function SetStatus(s: Status): (r: Reader)
      ensures r.status == (if status == Ok then s else status)
      ensures r.(status := status) == this
    {
      if status == Ok then this.(status := s) else this
    }
  }

  /** A stream over freshly buffered bytes, before any transaction. */
  function Open(buf: seq<byte>): (r: Reader)
    ensures r.Valid() && r.Remaining() == buf
  {
    Reader(buf, 0, 0, false, Ok, None)
  }

  /** startTransaction: remember the position and reset the status. */
  function StartTransaction(r: Reader): (r': Reader)
    requires r.Valid()
    ensures r'.Valid() && r'.txn && r'.status == Ok
    ensures r'.buf == r.buf && r'.pos == r'.restore == r.pos
  {
    r.(txn := true, restore := r.pos, status := Ok, ended := None)
  }

  /** The result of QDataStream::readBlock: the bytes obtained, the count it returns, the new stream. */
  datatype Block = Block(data: seq<byte>, count: int, next: Reader)

  /**
   * QDataStream::readBlock over the socket's QIODevice::read. Inside a
   * transaction whose status is no longer Ok nothing is read and -1 is
   * returned; the device refuses a negative count (-1); a read that finds
   * fewer bytes than asked takes what there is. Whenever the count differs
   * from the request the status becomes ReadPastEnd, so a request for -1
   * bytes, which the device answers with -1, leaves the status Ok.
   */
  function ReadBlock(r: Reader, n: int): (b: Block)
    requires r.Valid()
    ensures b.next.Valid() && b.next.buf == r.buf && b.next.restore == r.restore
    ensures b.next.txn == r.txn && b.next.ended == r.ended
    ensures r.pos <= b.next.pos
    ensures b.count != -1 ==> 0 <= b.count == |b.data| && b.data == r.buf[r.pos..b.next.pos]
    ensures r.status != Ok && r.txn ==> b == Block([], -1, r)
    ensures r.status == Ok && 0 <= n && r.pos + n <= |r.buf| ==>
              b == Block(r.buf[r.pos..r.pos + n], n, r)
                   .(next := r.(pos := r.pos + n))
    ensures r.status == Ok && 0 <= n && r.pos + n > |r.buf| ==>
              b.count == |r.buf| - r.pos < n && b.next.pos == |r.buf| && b.next.status == ReadPastEnd
    ensures r.status == Ok && n == -1 ==> b == Block([], -1, r)
    ensures r.status == Ok && n < -1 ==> b.count == -1 && b.next == r.(status := ReadPastEnd)
  {
    if r.status != Ok && r.txn then
      Block([], -1, r)
    else if n < 0 then
      Block([], -1, if n == -1 then r else r.SetStatus(ReadPastEnd))
    else if r.pos + n <= |r.buf| then
      Block(r.buf[r.pos..r.pos + n], n, r.(pos := r.pos + n))
    else
      Block(r.buf[r.pos..], |r.buf| - r.pos, r.(pos := |r.buf|).SetStatus(ReadPastEnd))
  }

  /** A value read by `>>` and the stream after the read. */
  datatype Value = Value(value: nat, next: Reader)

  /**
   * `stream >> x` for an unsigned big-endian integer of k bytes: a read that
   * does not obtain all k bytes leaves x == 0.
   */
  function ReadInt(r: Reader, k: nat): (v: Value)
    requires r.Valid()
    ensures v.value < Pow256(k)
    ensures v.next.Valid() && v.next.buf == r.buf && v.next.restore == r.restore
    ensures v.next.txn == r.txn && v.next.ended == r.ended
    ensures r.pos <= v.next.pos
    ensures r.status == Ok && r.pos + k <= |r.buf| ==>
              v == Value(FromBE(r.buf[r.pos..r.pos + k]), r.(pos := r.pos + k))
    ensures r.status == Ok && r.pos + k > |r.buf| ==>
              v.value == 0 && v.next.pos == |r.buf| && v.next.status == ReadPastEnd
    ensures r.status != Ok && r.txn ==> v == Value(0, r)
  {
    var b := ReadBlock(r, k);
    Value(if b.count == k then FromBE(b.data) else 0, b.next)
  }

  /** `stream >> b` for one byte (quint8). */
  function ReadByte(r: Reader): (v: Value)
    requires r.Valid()
    ensures v.value < 0x100
    ensures v.next.Valid() && v.next.buf == r.buf && v.next.restore == r.restore
    ensures v.next.txn == r.txn && v.next.ended == r.ended
    ensures r.pos <= v.next.pos
    ensures r.status == Ok && r.pos < |r.buf| ==> v == Value(r.buf[r.pos], r.(pos := r.pos + 1))
    ensures r.status == Ok && r.pos == |r.buf| ==> v == Value(0, r.(status := ReadPastEnd))
    ensures r.status != Ok && r.txn ==> v == Value(0, r)
  {
    var b := ReadBlock(r, 1);
    Value(if b.count == 1 then b.data[0] else 0, b.next)
  }

  /** The result of commitTransaction: whether it succeeded, and the stream after it. */
  datatype Commit = Commit(ok: bool, next: Reader)

  /**
   * commitTransaction: with no open transaction nothing happens and the call
   * fails; a transaction that ran past the end is rolled back instead and the
   * call fails; otherwise the bytes read are consumed and the call succeeds
   * exactly when the status is Ok.
   */
  function CommitTransaction(r: Reader): (c: Commit)
    requires r.Valid()
    ensures c.next.Valid() && !c.next.txn && c.next.buf == r.buf && c.next.status == r.status
    ensures c.ok <==> r.txn && r.status == Ok
    ensures !r.txn ==> c.next == r
    ensures r.txn && r.status == ReadPastEnd ==> c.next.pos == r.restore && c.next.ended == Some(RolledBack)
    ensures r.txn && r.status != ReadPastEnd ==> c.next.pos == r.pos && c.next.ended == Some(Committed)
  {
    if !r.txn then
      Commit(false, r)
    else if r.status == ReadPastEnd then
      Commit(false, r.(txn := false, pos := r.restore, ended := Some(RolledBack)))
    else
      Commit(r.status == Ok, r.(txn := false, ended := Some(Committed)))
  }

  /**
   * rollbackTransaction: marks the stream ReadPastEnd (unless it already
   * failed) and, if a transaction is open, returns to its restore point when
   * the status is ReadPastEnd, or keeps the bytes read otherwise.
   */
  function RollbackTransaction(r: Reader): (r': Reader)
    requires r.Valid()
    ensures r'.Valid() && !r'.txn && r'.buf == r.buf && r'.status != Ok
    ensures !r.txn ==> r'.pos == r.pos && r'.ended == r.ended
    ensures r.txn && r.status in {Ok, ReadPastEnd} ==> r'.pos == r.restore && r'.ended == Some(RolledBack)
    ensures r.txn && r.status !in {Ok, ReadPastEnd} ==> r'.pos == r.pos && r'.ended == Some(Committed)
  {
    var s := r.SetStatus(ReadPastEnd);
    if !s.txn then s
    else if s.status == ReadPastEnd then s.(txn := false, pos := s.restore, ended := Some(RolledBack))
    else s.(txn := false, ended := Some(Committed))
  }

  /**
   * abortTransaction: marks the stream ReadCorruptData and, if a transaction
   * is open, closes it keeping every byte read so far consumed (the position
   * is not restored).
   */
  function AbortTransaction(r: Reader): (r': Reader)
    requires r.Valid()
    ensures r'.Valid() && !r'.txn && r'.buf == r.buf && r'.pos == r.pos
    ensures r'.status == ReadCorruptData
    ensures r.txn ==> r'.ended == Some(Aborted)
    ensures !r.txn ==> r'.ended == r.ended
  {
    var s := r.(status := ReadCorruptData);
    if !s.txn then s else s.(txn := false, ended := Some(Aborted))
  }
}

/**
 * A secondary instance talking to the primary: connecting to the primary's
 * endpoint (connectToPrimary) and sending one framed message, then waiting
 * for its acknowledgement (sendApplicationMessage). The socket calls and
 * their timeouts enter as the results they report.
 */
module Secondary {
  import opened Wrappers
  import opened Bytes
  import opened DataStream
  import opened MessageCoder
  import CoderProofs

  /** The states of a local socket. */
  datatype SocketState = Unconnected | Connecting | Connected | Closing

  /**
   * What connectToPrimary did: whether it created the socket, called
   * connectToServer, called waitForConnected, and what it returned.
   */
  datatype Connect = Connect(connected: bool, created: bool, dialed: bool, waited: bool)

  /**
   * connectToPrimary on the socket there may be (None before the first
   * call), given what waitForConnected would report. A missing socket is
   * created first, in the unconnected state. A connected socket returns
   * true at once; a socket already connecting is not dialled again; in
   * every other case the result is the wait's.
   */
  function ConnectToPrimary(socket: Option<SocketState>, waitResult: bool): (c: Connect)
    ensures c.created <==> socket.None?
    ensures socket == Some(Connected) ==> c == Connect(true, false, false, false)
    ensures c.dialed <==> socket != Some(Connected) && socket != Some(Connecting)
    ensures c.waited <==> socket != Some(Connected)
    ensures c.waited ==> c.connected == waitResult
  {
    var state := if socket.None? then Unconnected else socket.value;
    if state == Connected then Connect(true, socket.None?, false, false)
    else Connect(waitResult, socket.None?, state != Connecting, true)
  }

  /**
   * A missing socket behaves as a fresh unconnected one, apart from being
   * created: the first call always dials and waits.
   */
  lemma MissingSocketActsUnconnected(waitResult: bool)
    ensures ConnectToPrimary(None, waitResult) == ConnectToPrimary(Some(Unconnected), waitResult).(created := true)
    ensures ConnectToPrimary(None, waitResult) == Connect(waitResult, true, true, true)
  {
  }

  /**
   * connectToPrimary reports a connection exactly when the socket already
   * was connected or the wait says so; a socket already connected is never
   * dialled or waited on, whatever the wait would report.
   */
  lemma ConnectedIffAlreadyOrWaited(socket: Option<SocketState>, waitResult: bool)
    ensures ConnectToPrimary(socket, waitResult).connected <==> socket == Some(Connected) || waitResult
    ensures socket == Some(Connected) ==> ConnectToPrimary(socket, waitResult) == ConnectToPrimary(socket, !waitResult)
  {
  }

  /**
   * An unsigned 32-bit value passed where a signed 32-bit int is expected:
   * values from 2^31 on turn negative.
   */
  function Int32Of(u: u32): (i: int)
    ensures -0x8000_0000 <= i < 0x8000_0000
    ensures u < 0x8000_0000 ==> i == u
    ensures u >= 0x8000_0000 ==> i < 0 && i + 0x1_0000_0000 == u
  {
    if u < 0x8000_0000 then u else u - 0x1_0000_0000
  }

  /**
   * The connection budget as written: two thirds of the timeout in unsigned
   * 32-bit arithmetic, where the doubling wraps around.
   */
  function ConnectBudgetAsWritten(timeout: u32): (b: u32)
    ensures timeout < 0x8000_0000 ==> b == timeout * 2 / 3
    ensures timeout >= 0x8000_0000 ==> b == (timeout * 2 - 0x1_0000_0000) / 3
  {
    (timeout * 2 % 0x1_0000_0000) / 3
  }

  /** Two thirds of the timeout, rounded down, computed without overflowing 32 bits. */
  function ConnectBudget(timeout: u32): (b: u32)
    ensures b == timeout * 2 / 3
    ensures b <= timeout
  {
    TwoThirds(timeout);
    timeout / 3 * 2 + timeout % 3 * 2 / 3
  }

  lemma TwoThirds(t: nat)
    ensures t / 3 * 2 + t % 3 * 2 / 3 == t * 2 / 3
  {
    var q, r := t / 3, t % 3;
    assert t * 2 == 3 * (2 * q) + 2 * r;
  }

  /**
   * The wrapped budget is below 2^32 / 3, so the narrowing to int at the
   * connection wait leaves it unchanged. The corrected budget, passed the
   * same way, turns negative from a timeout of 3 * 2^30 on.
   */
  lemma BudgetNarrowing(timeout: u32)
    ensures Int32Of(ConnectBudgetAsWritten(timeout)) == ConnectBudgetAsWritten(timeout)
    ensures timeout >= 0xC000_0000 <==> Int32Of(ConnectBudget(timeout)) < 0
  {
  }

  /**
   * The two budgets agree below 2^31; from 2^31 on the wrapped one is about
   * 1.43 billion milliseconds short, and at 2^31 it is 0, so the connection
   * is not waited for at all.
   */
  lemma ConnectBudgetWraps(timeout: u32)
    ensures timeout < 0x8000_0000 ==> ConnectBudgetAsWritten(timeout) == ConnectBudget(timeout)
    ensures timeout >= 0x8000_0000 ==> ConnectBudgetAsWritten(timeout) < ConnectBudget(timeout)
    ensures ConnectBudgetAsWritten(0x8000_0000) == 0 && ConnectBudget(0x8000_0000) == 0x5555_5555
  {
  }

  /**
   * The instance number as sendMessage's quint16 parameter receives it: an
   * unsigned number keeps its low 16 bits.
   */
  function InstanceId16(n: nat): (id: u16)
    ensures n < 0x1_0000 ==> id == n
    ensures id <= n && (n - id) % 0x1_0000 == 0
  {
    n % 0x1_0000
  }

  /** The reply as the secondary's message parser reads it. */
  datatype Reply = Reply(invalid: bool, instanceId: nat, msgType: MessageType)

  /**
   * What the socket reports during one exchange: the connection wait as a
   * function of the (signed) milliseconds it is given, whether the device is
   * writable, whether the written bytes were flushed in time, and the reply
   * read, if one arrived.
   */
  datatype Exchange = Exchange(connectWait: int -> bool, deviceOpen: bool, flushed: bool, reply: Option<Reply>)

  /** What sendApplicationMessage returned, the bytes it wrote and how it connected. */
  datatype Sending = Sending(ok: bool, sent: seq<byte>, connect: Connect)

  /**
   * The exchange once the connection budget is fixed: connect, write one
   * frame, wait for it to be flushed and for a reply. Success means the
   * reply is a valid Acknowledge from instance 0, the primary; a failed
   * connection writes nothing. The instance number is narrowed to the
   * frame's 16-bit field. The result of the write itself is not looked at:
   * an oversize message writes nothing and the flush wait decides.
   */
  function SendWithBudget(socket: Option<SocketState>, t: MessageType, instanceNumber: nat, content: seq<byte>,
                          budget: int, ck: Checksum, io: Exchange): (s: Sending)
    ensures s.connect == ConnectToPrimary(socket, io.connectWait(budget))
    ensures !s.connect.connected ==> s.sent == []
    ensures s.connect.connected ==> s.sent == SendMessage(t, InstanceId16(instanceNumber), content, ck, io.deviceOpen).written
    ensures s.ok <==>
              && s.connect.connected && io.flushed && io.reply.Some?
              && !io.reply.value.invalid && io.reply.value.instanceId == 0 && io.reply.value.msgType == Acknowledge
  {
    var c := ConnectToPrimary(socket, io.connectWait(budget));
    if !c.connected then Sending(false, [], c)
    else
      var sent := SendMessage(t, InstanceId16(instanceNumber), content, ck, io.deviceOpen).written;
      if !io.flushed then Sending(false, sent, c)
      else
        match io.reply
        case None => Sending(false, sent, c)
        case Some(reply) =>
          if reply.invalid then Sending(false, sent, c)
          else if reply.instanceId != 0 then Sending(false, sent, c)
          else if reply.msgType != Acknowledge then Sending(false, sent, c)
          else Sending(true, sent, c)
  }

  /**
   * sendApplicationMessage as written: the connection wait gets the wrapped
   * two thirds of the timeout, which the narrowing to int leaves unchanged.
   */
  function SendApplicationMessage(socket: Option<SocketState>, t: MessageType, instanceNumber: nat, content: seq<byte>,
                                  timeout: u32, ck: Checksum, io: Exchange): (s: Sending)
    ensures s.connect == ConnectToPrimary(socket, io.connectWait(ConnectBudgetAsWritten(timeout)))
    ensures !s.connect.connected ==> s.sent == []
    ensures s.connect.connected ==> s.sent == SendMessage(t, InstanceId16(instanceNumber), content, ck, io.deviceOpen).written
    ensures s.ok <==>
              && s.connect.connected && io.flushed && io.reply.Some?
              && !io.reply.value.invalid && io.reply.value.instanceId == 0 && io.reply.value.msgType == Acknowledge
  {
    BudgetNarrowing(timeout);
    SendWithBudget(socket, t, instanceNumber, content, Int32Of(ConnectBudgetAsWritten(timeout)), ck, io)
  }

  /** The intended exchange: the connection wait gets two thirds of the timeout, unwrapped. */
  function SendApplicationMessageIntended(socket: Option<SocketState>, t: MessageType, instanceNumber: nat, content: seq<byte>,
                                          timeout: u32, ck: Checksum, io: Exchange): (s: Sending)
    ensures s.connect == ConnectToPrimary(socket, io.connectWait(timeout * 2 / 3))
    ensures s.ok ==> s.connect.connected && io.flushed
  {
    SendWithBudget(socket, t, instanceNumber, content, ConnectBudget(timeout), ck, io)
  }

  /**
   * The exchange as written and the intended one behave alike for every
   * timeout below 2^31 ms; from there on they differ at most in the
   * connection wait, which as written gets a wrapped budget.
   */
  lemma IntendedAgreesBelow2To31(socket: Option<SocketState>, t: MessageType, instanceNumber: nat, content: seq<byte>,
                                 timeout: u32, ck: Checksum, io: Exchange)
    ensures timeout < 0x8000_0000 ==>
              SendApplicationMessageIntended(socket, t, instanceNumber, content, timeout, ck, io)
              == SendApplicationMessage(socket, t, instanceNumber, content, timeout, ck, io)
    ensures io.connectWait(timeout * 2 / 3) == io.connectWait(ConnectBudgetAsWritten(timeout)) ==>
              SendApplicationMessageIntended(socket, t, instanceNumber, content, timeout, ck, io)
              == SendApplicationMessage(socket, t, instanceNumber, content, timeout, ck, io)
  {
    BudgetNarrowing(timeout);
    ConnectBudgetWraps(timeout);
  }

  /**
   * What the secondary writes is what the primary's decoder reads back: an
   * accepted message that fits is decoded to the same type and content and
   * to the instance number's low 16 bits, and the bytes after it are left
   * for the next attempt. The primary sees the secondary's own number
   * exactly when that number fits in 16 bits.
   */
  lemma SentMessageDecodes(socket: Option<SocketState>, t: MessageType, instanceNumber: nat, content: seq<byte>,
                           timeout: u32, ck: Checksum, io: Exchange, suffix: seq<byte>)
    requires Accepted(t) && |content| <= MaxContent && io.deviceOpen
    requires SendApplicationMessage(socket, t, instanceNumber, content, timeout, ck, io).connect.connected
    ensures DecodeStep(SendApplicationMessage(socket, t, instanceNumber, content, timeout, ck, io).sent + suffix, ck)
            == Attempt(Some(Message(t, InstanceId16(instanceNumber), content)), suffix, Committed)
    ensures var id := DecodeStep(SendApplicationMessage(socket, t, instanceNumber, content, timeout, ck, io).sent + suffix, ck)
                        .emitted.value.instanceId;
            id == instanceNumber <==> instanceNumber < 0x1_0000
  {
    CoderProofs.SendThenDecode(t, InstanceId16(instanceNumber), content, ck, suffix);
  }

  /** Content over 1 MiB never reaches the socket, connected or not. */
  lemma OversizeNothingSent(socket: Option<SocketState>, t: MessageType, instanceNumber: nat, content: seq<byte>,
                            timeout: u32, ck: Checksum, io: Exchange)
    requires |content| > MaxContent
    ensures SendApplicationMessage(socket, t, instanceNumber, content, timeout, ck, io).sent == []
  {
  }

  /**
   * notifySecondaryStart: a NewInstance message with no content. Once
   * connected to a writable socket it writes a bare 21-byte NewInstance
   * frame, and it succeeds only when that frame was flushed.
   */
  function NotifySecondaryStart(socket: Option<SocketState>, instanceNumber: nat, timeout: u32, ck: Checksum, io: Exchange): (s: Sending)
    ensures s.connect.connected && io.deviceOpen ==> s.sent == Encode(NewInstance, InstanceId16(instanceNumber), [], ck)
    ensures s.connect.connected && io.deviceOpen ==> |s.sent| == Overhead
    ensures !s.connect.connected ==> s.sent == []
    ensures s.ok ==> s.connect.connected && io.flushed
  {
    SendApplicationMessage(socket, NewInstance, instanceNumber, [], timeout, ck, io)
  }

  /**
   * Once connected to a writable socket, the start notification is decoded
   * by the primary to a NewInstance message from this instance, with no
   * content and nothing left over.
   */
  lemma NotifyDecodesAsNewInstance(socket: Option<SocketState>, instanceNumber: nat, timeout: u32, ck: Checksum, io: Exchange)
    requires NotifySecondaryStart(socket, instanceNumber, timeout, ck, io).connect.connected && io.deviceOpen
    ensures DecodeStep(NotifySecondaryStart(socket, instanceNumber, timeout, ck, io).sent, ck)
            == Attempt(Some(Message(NewInstance, InstanceId16(instanceNumber), [])), [], Committed)
  {
    var s := NotifySecondaryStart(socket, instanceNumber, timeout, ck, io);
    SentMessageDecodes(socket, NewInstance, instanceNumber, [], timeout, ck, io, []);
    assert s.sent + [] == s.sent;
  }
}

# SingleApplication: frame codec and endpoint naming, in Dafny

This project models the core of the SingleApplication library. That library
lets only one instance of an application run. A later instance (a secondary)
finds the first one (the primary) through a local socket whose name every
instance derives the same way, and then sends it framed messages.

The model covers:

- the frame codec of `MessageCoder`:
  - the encoder `sendMessage`;
  - one iteration of the decoding loop in `slotDataAvailable`, with
    QDataStream's read transactions (commit, rollback, abort) modelled as an
    immutable reader record;
  - the loop around those iterations, as written and as intended;
- the endpoint name derivation `genBlockServerName`: which fields are fed to
  the hash, and in which order, under which mode flags and on which
  platform, plus the `/` to `_` rewrite of the Base64 text;
- `addAppData` and `appData`;
- the state decision of `connectToPrimary`;
- the acknowledgement rule of `sendApplicationMessage`, and
  `notifySecondaryStart`.

Modules follow the program:

| module | file | covers |
|---|---|---|
| `Wrappers` | wrappers.dfy | `Option` |
| `Bytes` | bytes.dfy | byte and unsigned widths; big-endian integers; the signed 64-bit reading of the length |
| `DataStream` | data_stream.dfy | the reading side of QDataStream |
| `MessageCoder` | message_coder.dfy | encoder and decode attempt |
| `CoderProofs` | coder_proofs.dfy | round trip, rejection, rollback and split-delivery lemmas |
| `DecodeLoop` | decode_loop.dfy | the `while (bytesAvailable() > 0)` loop of `slotDataAvailable` |
| `ServerName` | server_name.dfy | `genBlockServerName`, `addAppData`, `appData` |
| `Secondary` | secondary.dfy | `connectToPrimary`, `sendApplicationMessage`, `notifySecondaryStart` |

## How QDataStream is modelled

The codec's behaviour on short or malformed input depends on QDataStream.
The model follows Qt's implementation of it:

- A `>>` read that cannot obtain all its bytes takes what there is, leaves
  the value 0 and sets the status to ReadPastEnd.
- Inside a transaction, once the status is no longer Ok, no further bytes are
  read, and `readRawData` returns -1.
- `readRawData` with a negative count returns -1, because the device refuses
  a negative read. QDataStream sets ReadPastEnd only when the count returned
  differs from the count asked for. So a count below -1 sets ReadPastEnd,
  while a count of exactly -1 leaves the status Ok. This follows Qt 6.7 and
  later, where `readRawData` takes a 64-bit count.
- `abortTransaction` sets ReadCorruptData and keeps every byte read so far
  consumed.
- `rollbackTransaction` returns to the start of the transaction when the
  status is ReadPastEnd.
- `commitTransaction` on a ReadPastEnd stream rolls back and fails.

`MessageCoder.Parse` is one attempt. `DecodeStep` is the attempt as written.
`DecodeStepGuarded` is the same attempt with a rollback after every header
read that ran past the end (see Findings).

The header reads at message_coder.cpp:62-104 have no status checks. The model
gives them the code's behaviour on short buffers, zero-filled values
included. It does not restrict the header proofs to buffers holding a whole
header. A negative declared length is likewise modelled as the code runs it.
The content read fails. Below -1 the status is ReadPastEnd and the attempt
rolls back. At exactly -1 (eight 0xFF bytes) the status stays Ok, the switch
at message_coder.cpp:113-123 reaches its default case, and the attempt aborts
with the 19 header bytes consumed.

## Model

| member | source | states |
|---|---|---|
| MessageCoder.AcceptedType | message_coder.cpp:90-100 | only the codes 0, 1 and 2 pass the type switch, as Acknowledge, NewInstance and InstanceMessage; no accepted type has any other code |
| MessageCoder.Layout | message_coder.cpp:205-216 | a frame is 21 bytes longer than its content; magic, version, type, id, length, content and checksum sit at fixed big-endian offsets |
| MessageCoder.Encode | message_coder.cpp:205-216 | the frame starts with 00 01 00 02 and has version 1, the type's code, the id, the content length, the content, and a checksum of the content alone |
| MessageCoder.SendMessage | message_coder.cpp:188-219 | success exactly when the content is at most 1 MiB (1 MiB itself included) and the device accepts writes; on success exactly the encoded frame is written, otherwise nothing |
| MessageCoder.ReadMagic | message_coder.cpp:59-81 | the four magic bytes are checked one at a time; as written, fewer than four bytes always abort; guarded, a prefix of the magic rolls back |
| MessageCoder.ReadVersionType | message_coder.cpp:83-100 | a version above 1 aborts after 8 bytes; an unaccepted type aborts after 9; otherwise the attempt goes on with the decoded type |
| MessageCoder.ReadIdLength | message_coder.cpp:102-108 | a declared length above 1 MiB aborts after the 19 header bytes; otherwise a header with the id and signed length read |
| MessageCoder.ReadHeader | message_coder.cpp:59-108 | a header read that ended the attempt was aborted or (guarded only) rolled back to the start; a header read with status Ok consumed exactly 19 bytes |
| MessageCoder.ReadHeaderFields | message_coder.cpp:62-108 | a header read with status Ok passed every header check, and its fields are the big-endian values at their offsets |
| MessageCoder.ReadBody | message_coder.cpp:110-182 | the content and checksum reads: rollback when the stream ends inside either, or when the length is below -1; a length of exactly -1 aborts with only the header consumed; commit and emit exactly when the stored checksum equals the checksum of the content; abort otherwise, with the whole frame consumed |
| MessageCoder.ContentCut | message_coder.cpp:112-144 | a failed or short content read emits nothing; it rolls back when the stream ran past the end or the length is below -1, and otherwise aborts, as at length -1 |
| MessageCoder.AfterFailedRead | message_coder.cpp:113-126 | after a failed content read the switch never goes on; it rolls back exactly on ReadPastEnd and aborts on every other status |
| MessageCoder.AfterShortRead | message_coder.cpp:127-144 | after a short content read the switch never goes on; it rolls back exactly on ReadPastEnd and aborts on every other status, Ok included |
| MessageCoder.AfterChecksumRead | message_coder.cpp:146-161 | after the checksum read the attempt goes on exactly when the status is Ok, rolls back exactly on ReadPastEnd, and aborts otherwise |
| MessageCoder.ReadChecksum | message_coder.cpp:146-182 | a cut-short checksum rolls back, and the comparison that follows changes nothing; a whole checksum commits on a match and aborts on a mismatch |
| MessageCoder.Parse | message_coder.cpp:58-183 | one attempt: the bytes left are a suffix of the input; a rollback leaves every byte and happens only when the bytes run out or the declared length is below -1; any other end drops at least one byte; an emission is a commit of exactly 21 + content bytes |
| MessageCoder.DecodeStep | message_coder.cpp:58-183 | one loop iteration as written, with the guarantees of Parse |
| MessageCoder.DecodeStepGuarded | message_coder.cpp:62-104 | the corrected iteration, with the same guarantees |
| DataStream.StartTransaction | message_coder.cpp:59 | the restore point is the current position and the status is reset to Ok |
| DataStream.ReadBlock | message_coder.cpp:112 | a whole read returns the next n bytes; a short read returns what is there and sets ReadPastEnd; a negative count or a failed transaction returns -1; a count of -1 leaves the status Ok and a count below -1 sets ReadPastEnd |
| DataStream.ReadInt | message_coder.cpp:84 | a big-endian k-byte read yields the value at the position, or 0 with ReadPastEnd when the bytes run out |
| DataStream.ReadByte | message_coder.cpp:62 | a one-byte read yields the next byte, or 0 with ReadPastEnd at the end |
| DataStream.CommitTransaction | message_coder.cpp:175 | with no open transaction it does nothing and fails; ReadPastEnd rolls back and fails; otherwise the bytes read are consumed and the call succeeds exactly when the status is Ok |
| DataStream.RollbackTransaction | message_coder.cpp:116 | the status becomes ReadPastEnd unless the stream had already failed; an open transaction returns to its restore point |
| DataStream.AbortTransaction | message_coder.cpp:64 | the status becomes ReadCorruptData and every byte read stays consumed |
| Bytes.FromBEToBE | message_coder.cpp:205-209 | a k-byte big-endian field reads back the value written into it |
| Bytes.ToBEFromBE | message_coder.cpp:84 | every k-byte field is the big-endian encoding of the value read from it |
| CoderProofs.WrongMagicRejected | message_coder.cpp:62-81 | a wrong magic byte at offset i aborts with nothing emitted and i + 1 bytes consumed |
| CoderProofs.NewerVersionRejected | message_coder.cpp:83-88 | a version above 1 aborts with 8 bytes consumed |
| CoderProofs.UnacceptedTypeRejected | message_coder.cpp:90-100 | a type code other than 0, 1 or 2 aborts with 9 bytes consumed |
| CoderProofs.AcceptedTypeOfCode | message_coder.cpp:90-100 | the code the encoder writes for a type passes the switch as that type exactly when the type is accepted |
| CoderProofs.OversizeLengthRejected | message_coder.cpp:102-108 | a declared length above 1 MiB aborts with the 19 header bytes consumed |
| CoderProofs.ChecksumMismatchRejected | message_coder.cpp:164-172 | a stored checksum that differs from the content's emits nothing and leaves the whole frame consumed; the header is not covered |
| CoderProofs.ShortBodyRolledBack | message_coder.cpp:110-153 | with a valid header, a stream that ends inside the content or checksum, or a length below -1, rolls back with every byte kept |
| CoderProofs.MinusOneLengthAborted | message_coder.cpp:110-126 | with a valid header and a declared length of exactly -1, the attempt aborts with the 19 header bytes consumed and nothing emitted |
| CoderProofs.NegativeLengthNeverEmits | message_coder.cpp:110-144 | a negative declared length never emits: below -1 every byte stays, and at -1 exactly the header is dropped |
| CoderProofs.FrameDecodes | message_coder.cpp:58-182 | any well-formed frame of version 0 or 1, followed by anything, emits exactly its message and leaves exactly what follows |
| CoderProofs.SendThenDecode | message_coder.cpp:205-216 | round trip: the bytes sendMessage writes for an accepted type, followed by anything, decode to the same type, id and content, and leave exactly the suffix |
| CoderProofs.RequestFramesNeverDecoded | message_coder.cpp:90-100 | the encoder's PrimaryPidRequest and PrimaryUserRequest frames abort after the type byte and are never emitted |
| CoderProofs.EmittedFields | message_coder.cpp:174-182 | when a message is emitted, its type, id, content and checksum are the fields of the buffer, and the rest is what follows the frame |
| CoderProofs.EmittedWasFramed | message_coder.cpp:174-182 | whatever is emitted was framed: the consumed bytes are exactly the emitted message's frame, with a version of at most 1 and a matching checksum |
| CoderProofs.ShortBufferDiscarded | message_coder.cpp:62-81 | as written, one to three bytes always abort with nothing emitted; a buffer holding the start of the magic is dropped whole |
| CoderProofs.MagicSplitAfterFirstByte | message_coder.cpp:62-81 | bytes starting with the magic, split after the first byte: the first attempt drops that byte, and the second aborts at the first magic check |
| CoderProofs.FrameSplitAfterFirstByteIsLost | message_coder.cpp:62-81 | an encoded frame whose first byte arrives alone is never emitted |
| CoderProofs.WrittenKeepsShortHeader | message_coder.cpp:83-116 | as written, 4 to 18 bytes whose present fields pass are kept by a rollback |
| CoderProofs.PrefixFromFourBytesKept | message_coder.cpp:58-153 | as written, every attempt on a prefix of a frame from four bytes on rolls back, keeping the prefix whole for a later attempt |
| CoderProofs.GuardedKeepsShortHeader | message_coder.cpp:62-104 | guarded, every buffer shorter than a header whose present fields pass is kept whole |
| CoderProofs.GuardedKeepsPartialFrames | message_coder.cpp:58-153 | guarded, every attempt on a proper non-empty prefix of a frame rolls back, keeping the prefix whole for a later attempt; whether one comes depends on the loop (DecodeLoop.PiecesDecoded) |
| CoderProofs.GuardedAgreesOnWholeHeaders | message_coder.cpp:62-108 | the guarded and the as-written attempt agree on every buffer that holds a whole header |
| DecodeLoop.LoopAsWritten | message_coder.cpp:58-183 | the loop as written, for a bounded number of iterations: a run that ends has consumed every byte, and what it leaves is a suffix of the buffer |
| DecodeLoop.RollbackNeverFinishes | message_coder.cpp:58-183 | as written, a buffer whose attempt rolls back is retried for ever: however many iterations are allowed, nothing is emitted, every byte is kept and the loop does not end |
| DecodeLoop.PartialFrameSpins | message_coder.cpp:58-153 | as written, a frame of which four or more bytes but not all have arrived keeps the loop running on those bytes for ever |
| DecodeLoop.AsWrittenSound | message_coder.cpp:58-183 | every attempt as written leaves a suffix, keeps every byte and emits nothing when it rolls back, and otherwise consumes a byte |
| DecodeLoop.GuardedSound | message_coder.cpp:58-183 | the corrected attempt has the same guarantees |
| DecodeLoop.Drain | message_coder.cpp:58-183 | the loop as intended ends on every buffer: what it leaves is a suffix that is empty or that the attempt rolls back on |
| DecodeLoop.PiecesDecoded | message_coder.cpp:58-183 | with the corrected attempt and the intended loop, a frame split anywhere is kept whole by the call on the first piece, and the call after the rest arrives emits exactly its message and leaves nothing |
| ServerName.FedFields | singleapplication_p.cpp:128-163 | the tag, application name, organization name and domain come first; the app data is fed iff the list is non-empty, the version iff ExcludeAppVersion is unset, the executable iff ExcludeAppPath is unset, the user name iff User is set |
| ServerName.FedFieldsInFeedOrder | singleapplication_p.cpp:128-163 | the fed fields follow the source's call order, so none is fed twice |
| ServerName.HashInputIsAddDataCalls | singleapplication_p.cpp:119-167 | the bytes the chunks feed to the hash are exactly those of the source's straight line of addData calls, each guarded by its own test, so the name is the rewritten Base64 digest of those bytes |
| ServerName.PathBytes | singleapplication_p.cpp:143-158 | which bytes stand for the executable on each platform; what that means for the name is stated by ServerName.PathCaseIgnoredOnWindows (paths differing only in case give the same name on Windows), ServerName.AppImageReplacesPath (on Linux a set APPIMAGE makes the path irrelevant) and ServerName.ExcludedPathIgnored (with ExcludeAppPath neither matters) |
| ServerName.PathCaseIgnoredOnWindows | singleapplication_p.cpp:144-145 | on Windows two paths with the same lower-cased form give the same name |
| ServerName.Digest | singleapplication_p.cpp:121-126 | the hash chosen per platform; its meaning, a name short enough for the macOS 31-character key limit, is stated by ServerName.NameLengthByPlatform (24 characters on macOS, 44 elsewhere) |
| ServerName.NameLengthByPlatform | singleapplication_p.cpp:121-126 | with 16-byte MD5, 32-byte SHA-256 and padded Base64, the name has 24 characters on macOS, within the 31-character key limit, and 44 elsewhere |
| ServerName.HashInputStart | singleapplication_p.cpp:128-134 | whatever the options, the hash input starts with "SingleApplication" and then the UTF-8 of the application name, organization name and organization domain |
| ServerName.ReplaceSlash | singleapplication_p.cpp:167 | same length; each '/' becomes '_' and every other byte is kept; no '/' remains |
| ServerName.ReplaceSlashIdempotent | singleapplication_p.cpp:167 | rewriting twice is rewriting once, and text without '/' is unchanged |
| ServerName.ReplaceSlashAlphabet | singleapplication_p.cpp:165-167 | Base64 text in the RFC 2045 alphabet becomes text in that alphabet with '_' in place of '/' |
| ServerName.BlockServerName | singleapplication_p.cpp:119-167 | the name is the Base64 text of the digest (MD5 on macOS, SHA-256 elsewhere) with each '/' turned into '_' and every other character kept |
| ServerName.SameFedValuesSameName | singleapplication_p.cpp:119-167 | the name depends only on the values of the fed fields |
| ServerName.ExcludedVersionIgnored | singleapplication_p.cpp:139-141 | with ExcludeAppVersion the version does not change the name |
| ServerName.ExcludedPathIgnored | singleapplication_p.cpp:143-158 | with ExcludeAppPath neither the path nor APPIMAGE changes the name |
| ServerName.AppImageReplacesPath | singleapplication_p.cpp:146-154 | on Linux a non-empty APPIMAGE is fed in place of the executable path, which then no longer changes the name |
| ServerName.UserIgnoredOutsideUserMode | singleapplication_p.cpp:161-163 | without User mode the user name does not change the name |
| ServerName.AppDataJoinedWithoutSeparator | singleapplication_p.cpp:136-137 | the entries are joined with no separator, so any two lists with the same joined text give the same name, if both are fed or neither is, or the empty text encodes to no bytes |
| ServerName.AppDataSplitCollides | singleapplication_p.cpp:136-137 | the distinct lists ["ab"] and ["a", "b"] give the same name |
| ServerName.AddAppData | singleapplication_p.cpp:318-321 | the entry is appended at the end and the earlier entries are kept |
| ServerName.AddedDataIsHashed | singleapplication_p.cpp:318-326 | after addAppData, the next derivation feeds the joined text with the new entry at its end |
| Secondary.ConnectToPrimary | singleapplication_p.cpp:190-201 | a missing socket is created; a connected socket returns true at once without dialling or waiting; a connecting socket is not dialled again; otherwise the wait decides |
| Secondary.MissingSocketActsUnconnected | singleapplication_p.cpp:190-192 | a missing socket behaves as a fresh unconnected one apart from being created |
| Secondary.ConnectedIffAlreadyOrWaited | singleapplication_p.cpp:194-200 | the result is true exactly when the socket was connected or the wait succeeded, and a connected socket ignores the wait |
| Secondary.Int32Of | singleapplication_p.cpp:200 | an unsigned timeout passed as a signed int keeps its value below 2^31 and turns negative from there on |
| Secondary.ConnectBudgetAsWritten | singleapplication_p.cpp:213 | `timeout * 2 / 3` in unsigned 32-bit arithmetic: exact below 2^31, and from 2^31 on the doubling wraps |
| Secondary.ConnectBudget | singleapplication_p.cpp:213 | two thirds of the timeout rounded down, without overflow, never above the timeout |
| Secondary.ConnectBudgetWraps | singleapplication_p.cpp:213 | the two budgets agree below 2^31; from 2^31 on the wrapped one is smaller, and it is 0 at exactly 2^31 |
| Secondary.BudgetNarrowing | singleapplication_p.cpp:200 | the wrapped budget is never changed by the narrowing to int; the corrected one would turn negative from 3 * 2^30 on |
| Secondary.InstanceId16 | singleapplication_p.cpp:217 | the instance number passed as sendMessage's quint16 keeps its low 16 bits, and is unchanged below 2^16 |
| Secondary.SendWithBudget | singleapplication_p.cpp:213-243 | success exactly when connected, flushed, and the reply is a valid Acknowledge from instance 0; a failed connection writes nothing; once connected, the written bytes are sendMessage's for the instance number's low 16 bits |
| Secondary.SendApplicationMessage | singleapplication_p.cpp:208-244 | the same rule, with the connection wait given the wrapped budget of the code as written |
| Secondary.SendApplicationMessageIntended | singleapplication_p.cpp:213 | the connection wait is given two thirds of the timeout, unwrapped |
| Secondary.IntendedAgreesBelow2To31 | singleapplication_p.cpp:213 | as written and intended agree below 2^31 ms, and whenever the wait gives the same answer for both budgets |
| Secondary.SentMessageDecodes | singleapplication_p.cpp:216-217 | once connected to a writable socket, what the secondary writes decodes at the primary to the same type and content and the instance number's low 16 bits, leaving what follows; the primary sees the secondary's own number exactly when it is below 2^16 |
| Secondary.OversizeNothingSent | singleapplication_p.cpp:216-217 | content over 1 MiB never reaches the socket |
| Secondary.NotifySecondaryStart | singleapplication_p.cpp:203-206 | once connected to a writable socket, exactly a bare 21-byte NewInstance frame is written; unconnected, nothing; success needs the connection and the flush |
| Secondary.NotifyDecodesAsNewInstance | singleapplication_p.cpp:203-206 | the start notification decodes to a NewInstance message from this instance, with no content |

## Left out

- MessageCoder.Encode: `qsizetype` is fixed at 8 bytes. This is its width on 64-bit platforms; a 32-bit build would write a 4-byte length.
- MessageCoder.TypeCode: the MessageType ordinals 0 to 4, in declaration order, and a 1-byte underlying type are assumed. The header that defines them, singleapplication.h, is not part of this model.
- DecodeLoop.LoopAsWritten: the loop is followed for a bounded number of iterations (`fuel`), because as written it need not end (see Findings). Bytes arriving while the slot runs are not modelled; each call of the slot sees a fixed buffer.
- MessageCoder.SendMessage: only a fresh stream is modelled, as in sendApplicationMessage, which builds a new coder for each call. A stream whose status is already not Ok writes nothing; this is not modelled. A device that refuses writes is the boolean `deviceOpen`.
- Secondary.SendApplicationMessage: the socket waits are booleans given by the caller: `waitForConnected` as a function of its budget, and `waitForBytesWritten` together with the elapsed-time budget of the timer at singleapplication_p.cpp:220. `flush` is not modelled.
- Secondary.SendApplicationMessage: the reply parser `SingleApplicationMessage` is not part of this model, so the reply is taken as given (`invalid`, `instanceId`, `type`). Also unmodelled: the coder built at singleapplication_p.cpp:216 connects the socket's readyRead to its own decoder (message_coder.cpp:33). During `waitForReadyRead` at :224 that decoder may consume a framed reply before `readAll` at :225 sees it. This is an unverified observation, read from the text only.
- Secondary.SendApplicationMessage: the narrowing of the uint timeout to int at `waitForReadyRead` (:224) and `waitForBytesWritten` (:220) is not modelled, because those waits are booleans.
- Secondary.SendApplicationMessage: the declared width of `instanceNumber` is in singleapplication_p.h, which is not part of this model. It is taken as any natural number, narrowed to `sendMessage`'s quint16 parameter (message_coder.h:55) by keeping its low 16 bits. A signed or wider member with values outside 0 to 65535 would be reported to the primary under another number; SentMessageDecodes states when it is not.
- Secondary.Reply: `instanceId` is an unbounded natural; its C++ width is declared in singleapplication_p.h, which is not part of this model.
- MessageCoder.Checksum: `qChecksum` is a function parameter. The same goes for SHA-256, MD5, Base64, UTF-8 encoding and `toLower` (fields of ServerName.Primitives): library code.
- ServerName.BlockServerName: the name is kept as bytes. The final `QString::fromUtf8` of the ASCII Base64 text is not modelled.
- ServerName.Host: `getUsername` (OS calls and environment variables) is reduced to its result. The same goes for the platform and the APPIMAGE value.
- MessageCoder.ReadIdLength: a negative declared length is modelled as Qt 6.7 and later treat it. The device refuses the read and `readRawData` returns -1. Below -1 the status becomes ReadPastEnd and the attempt rolls back. At -1 the status stays Ok and the attempt aborts. Before Qt 6.7, `readRawData` takes an `int`, so the length would first be truncated to 32 bits; that is not modelled.
- serverthread.cpp and serverthread.h: the accept loop is a thread with a mutex and polling; its point is concurrency.
- `startPrimary`, `slotConnectionEstablished`, `primaryPid` and `primaryUser`: these are server start-up, connection bookkeeping driven by Qt signals, and raw QDataStream replies. The decoder drops the request types anyway.
- `qDebug`/`qWarning` logging: no effect on behaviour.
- test/: whole-process integration runs with no codec-level assertions.

## Findings

| source | as written | input that shows it | evidently intended | confidence | as-written member | corrected member |
|---|---|---|---|---|---|---|
| message_coder.cpp:62-81 | the magic bytes are read with no status check, and a byte that has not arrived reads as 0, which fails the check for magic byte 1 or 3; the abort consumes the bytes read | a frame whose first byte arrives on its own: the attempt on that byte aborts and drops it, and the next attempt on the rest of the frame fails the first magic check (its first byte is 01), so the frame is never emitted | a buffer that ends inside the header is kept for a later attempt (a rollback), as the rollbacks at :116, :133 and :152 do for the content and checksum | not executed | CoderProofs.FrameSplitAfterFirstByteIsLost | CoderProofs.GuardedKeepsPartialFrames |
| message_coder.cpp:58 | after a rollback the loop condition `bytesAvailable() > 0` still holds, since a rollback consumes nothing, so the same attempt is made again on the same bytes | any buffer holding 4 or more bytes of a frame but not all of it, with no further bytes arriving while the slot runs: the slot never returns | after a rollback, return from the slot and resume at the next readyRead | not executed; assumes no bytes arrive during the slot | DecodeLoop.PartialFrameSpins | DecodeLoop.PiecesDecoded |
| singleapplication_p.cpp:213 | `timeout * 2 / 3` is computed in 32-bit `uint`, so the doubling wraps for timeouts of 2^31 ms or more | timeout = 2^31: the connection budget is 0 instead of 0x5555_5555 | two thirds of the timeout | not executed | Secondary.ConnectBudgetWraps | Secondary.ConnectBudget |

The corrected decode attempt is `MessageCoder.DecodeStepGuarded`. It agrees
with the as-written one whenever a whole header is buffered
(`CoderProofs.GuardedAgreesOnWholeHeaders`). A rollback only keeps the bytes
for a later attempt: a frame delivered in pieces is decoded only if the slot
returns after the rollback, which the loop as written does not do
(`DecodeLoop.RollbackNeverFinishes`). The intended loop is `DecodeLoop.Drain`,
and `DecodeLoop.PiecesDecoded` proves split frames decoded with it and the
corrected attempt. The exchange with the corrected
budget is `Secondary.SendApplicationMessageIntended`. `SendApplicationMessage`
keeps the budget of the code as written. The two are related by
`Secondary.IntendedAgreesBelow2To31`. Passed as the code passes it, a
corrected budget from 3 * 2^30 on would turn negative at the narrowing to
int (`Secondary.BudgetNarrowing`).

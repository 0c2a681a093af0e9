# Stl.Rpc shared streams, system calls and method definitions in Dafny

This project models four pieces of the Stl RPC stack and proves properties of
them.

- **`RpcSharedStream<T>`** is the host side of a remote stream. `OnAck`
  decides what happens to an acknowledgement from the consumer:
  - it is answered with "missing" when the reset comes from a foreign host
    or the worker cannot take the ack;
  - the first reset to position 0 starts the worker;
  - otherwise it is queued.

  The worker (`OnRun`) runs in passes. Each pass drains the queued acks,
  drops buffered items the consumer no longer needs, and sends items up to
  `NextIndex + AckAdvance`. It pulls from the local producer when an item
  is not buffered yet. A new ack pre-empts the producer. Reading the
  `long.MaxValue` sentinel ends the worker. `DisposeAsyncCore` writes that
  sentinel and unregisters the stream.
- **`RpcSystemCallSender`** sends the system calls `Ok`, `Error`, `Cancel`,
  `GetStream`, `StreamStart`, `StreamItem` and `StreamEnd`. It looks each
  one up in the system-calls service with `Single` and caches it. When
  preparing `Ok` fails, it rolls the caller's header list back and sends
  `Error` instead.
- **`RpcMethodDef`** is the wire-level descriptor of an RPC method. Its
  constructor does the following:
  - it derives the argument-list types;
  - it derives the remote parameter types, which are the parameters without
    the `CancellationToken`;
  - it sets the polymorphism and no-wait flags;
  - it sets validity.

  `ToString` renders the signature once and caches it.
- **`TextOrBytes`** is a serialized payload held as bytes: text is stored as
  UTF-16 code units. It offers the text and bytes views and a bounded
  rendering.

The project is split into these files:

| file | module | what it holds |
|---|---|---|
| `wrappers.dfy` | `Wrappers` | `Option` and `Result` |
| `stream_flow.dfy` | `StreamFlow` | the worker's flow control as pure functions (`Drain`, `Trim`, `Pull`, `SendLoop`, `Round`) and the lemmas about them |
| `shared_stream.dfy` | `SharedStreams` | the `RpcSharedStream<T>` class, plus the worker's loops as methods proved equal to those functions |
| `system_calls.dfy` | `SystemCalls` | the sender class, the `Single` lookup, and the header list with its rollback |
| `method_def.dfy` | `RpcConfiguration` | the `RpcMethodDef` class and the loop that removes the cancellation slot |
| `text_or_bytes.dfy` | `Serialization` | `TextOrBytes`, its views and its rendering, with the two findings below |

Some inputs of the source are made explicit:

- **The race** between "the producer yielded" and "a new ack arrived" is the
  input `Race`: no ack, or an ack after n more pulls.
- **The producer** is a finite list of items and how it stopped: completed,
  faulted, or cancelled by the stream's own token.
- **The clock** reading in `KeepAlive` and `OnAck` is a parameter.
- **`PrepareCall`** either succeeds in `Ok` or adds headers and throws. That
  outcome is the input `PrepareOutcome`.

Two behaviours of the worker are worth knowing:

- **An ack after the end is answered with InvalidPosition.** Take a
  consumer that acknowledges position 10 after it has received `End(10)`.
  The worker's `index` is already 11 and the terminal item is buffered. So
  the consumer gets a further `End(11, InvalidPosition)`.
  `StreamFlow.AckAfterEndReportsInvalidPosition` shows this on a two-item
  producer.
- **The buffer bound is conditional.** The buffer stays within
  `AckAdvance + 1` items only while the acknowledged position does not run
  ahead of what was produced. `StreamFlow.RespondBufferBound` states the
  bound under that condition.

## Model

| member | source | states |
|---|---|---|
| StreamFlow.TerminalItem | src/Stl.Rpc/Infrastructure/RpcSharedStream.cs:164-172 | the result captured when the producer stops is an error, NoError exactly for a normal completion |
| StreamFlow.Send | src/Stl.Rpc/Infrastructure/RpcSharedStream.cs:197-205 | an Item at the index for a value, otherwise an End at the index whose error is null exactly for NoError |
| StreamFlow.SendInvalidPosition | src/Stl.Rpc/Infrastructure/RpcSharedStream.cs:194-195 | an End at the index carrying InvalidPosition |
| StreamFlow.Drain | src/Stl.Rpc/Infrastructure/RpcSharedStream.cs:103-116 | reads the queued acks in order (DrainReleasesOnSentinel, DrainNeverBacksUpWithoutReset, DrainIndexComesFromAnAck, DrainEndsAtLastReset and DrainAcks state what it computes) |
| StreamFlow.Respond | src/Stl.Rpc/Infrastructure/RpcSharedStream.cs:118-182 | trim and send after the drain (RespondIsFaithful, RespondEndsExact, RespondSendsConsecutively, RespondItemsBetween, RespondMonotone, RespondPullsNothingAfterEnd and RespondBufferBound state what a pass does) |
| StreamFlow.Round | src/Stl.Rpc/Infrastructure/RpcSharedStream.cs:100-182 | one outer pass (SentinelReleasesWithoutSending, RoundNeverBacksUp, NoItemResentWithoutReset and ReplayedAckSendsNothing state what it does; RunRound runs it) |
| StreamFlow.Trim | src/Stl.Rpc/Infrastructure/RpcSharedStream.cs:122-124 | drops the buffered items before NextIndex, as far as the buffer reaches: bufferStart moves to NextIndex when it lies inside the buffer, stays put when NextIndex is behind it, the buffer keeps exactly the items from the new bufferStart on (with TrimKeepsTail), and nothing pulled is lost from the count of pulls |
| StreamFlow.TrimKeepsTail | src/Stl.Rpc/Infrastructure/RpcSharedStream.cs:122-124 | the trimmed buffer is exactly the old buffer from the new bufferStart on |
| StreamFlow.Clamp | src/Stl.Rpc/Infrastructure/RpcSharedStream.cs:122 | the clamped offset is 0 below the range, buffer.Count above it, and the offset itself inside [0, buffer.Count] |
| StreamFlow.Pull | src/Stl.Rpc/Infrastructure/RpcSharedStream.cs:158-175 | one pull appends one item to the buffer and leaves index and bufferStart alone |
| StreamFlow.SendLoop | src/Stl.Rpc/Infrastructure/RpcSharedStream.cs:137-182 | the send loop keeps bufferStart, never forgets a pulled item and never moves index backward |
| StreamFlow.PullConsistent | src/Stl.Rpc/Infrastructure/RpcSharedStream.cs:158-175 | a pull appends exactly the producer's next item and sets isEnumerationEnded exactly when that item is the terminal error |
| StreamFlow.TrimConsistent | src/Stl.Rpc/Infrastructure/RpcSharedStream.cs:122-124 | trimming keeps every buffered item at its absolute position |
| StreamFlow.SendLoopConsistent | src/Stl.Rpc/Infrastructure/RpcSharedStream.cs:137-182 | after the send loop the buffer still holds exactly what the producer yielded at each position |
| StreamFlow.SendLoopFaithful | src/Stl.Rpc/Infrastructure/RpcSharedStream.cs:178-179 | every message sent is either the producer's item at its position, the terminal end with the producer's error at the sequence's end, or an InvalidPosition report |
| StreamFlow.SendItemFaithful | src/Stl.Rpc/Infrastructure/RpcSharedStream.cs:178-179 | the item at index - bufferStart of a consistent buffer is sent as the producer's item for that index |
| StreamFlow.DrainReleasesOnSentinel | src/Stl.Rpc/Infrastructure/RpcSharedStream.cs:108-112 | the worker is released exactly when the batch holds the long.MaxValue sentinel; reading stops at the first sentinel, which is the ack kept, and the acks after it stay queued; otherwise the whole batch is read and the last ack is kept |
| StreamFlow.DrainNeverBacksUpWithoutReset | src/Stl.Rpc/Infrastructure/RpcSharedStream.cs:108-116 | without resets, draining never moves index backward and leaves it at or past every NextIndex read |
| StreamFlow.DrainIndexComesFromAnAck | src/Stl.Rpc/Infrastructure/RpcSharedStream.cs:114-115 | draining leaves index where it was or sets it to the NextIndex of an ack of the batch |
| StreamFlow.DrainEndsAtLastReset | src/Stl.Rpc/Infrastructure/RpcSharedStream.cs:114-115 | a batch that ends with a reset leaves index exactly at that reset's NextIndex |
| StreamFlow.SendLoopConsecutive | src/Stl.Rpc/Infrastructure/RpcSharedStream.cs:137-182 | sends go to consecutive positions from index on, all below maxIndex |
| StreamFlow.SendLoopOnlyLastIsEnd | src/Stl.Rpc/Infrastructure/RpcSharedStream.cs:180-181 | only the last message of the loop can be an End: sending an error item ends the loop |
| StreamFlow.SendLoopAdvancesIndex | src/Stl.Rpc/Infrastructure/RpcSharedStream.cs:178-179 | index ends at or one past the last position sent (exactly one past it when the loop did not stop on an End, by SendLoopIndexPastLastItem) |
| StreamFlow.SendLoopIndexPastLastItem | src/Stl.Rpc/Infrastructure/RpcSharedStream.cs:137-182 | when the loop did not stop on an End, index ends exactly one past the last position sent |
| StreamFlow.SendLoopPullsNothingAfterEnd | src/Stl.Rpc/Infrastructure/RpcSharedStream.cs:142-145 | once the terminal item is buffered the loop pulls nothing more |
| StreamFlow.SendLoopBufferBound | src/Stl.Rpc/Infrastructure/RpcSharedStream.cs:140-141 | the loop buffers no further than the window: the buffer ends no longer than it was or than the distance from bufferStart to maxIndex |
| StreamFlow.SendLoopEndsExact | src/Stl.Rpc/Infrastructure/RpcSharedStream.cs:142-172 | conversely, the loop reports InvalidPosition only for a position past the terminal item, and the End it sends at the sequence's end carries how the producer ended (null for a normal completion) |
| StreamFlow.PastTerminalGetsInvalidPosition | src/Stl.Rpc/Infrastructure/RpcSharedStream.cs:142-145 | a position past the terminal item inside the window is answered with one InvalidPosition end and nothing else |
| StreamFlow.RespondIsFaithful | src/Stl.Rpc/Infrastructure/RpcSharedStream.cs:118-182 | a pass keeps the buffer consistent with the producer and sends only faithful messages |
| StreamFlow.RespondSendsConsecutively | src/Stl.Rpc/Infrastructure/RpcSharedStream.cs:126-182 | a pass sends to consecutive positions from the drained index, every Item inside NextIndex + AckAdvance, only the last message an End; an index behind the trimmed buffer gets exactly one InvalidPosition |
| StreamFlow.RespondItemsBetween | src/Stl.Rpc/Infrastructure/RpcSharedStream.cs:137-182 | every Item of a pass lies between the drained index and the index the pass ends with |
| StreamFlow.RespondMonotone | src/Stl.Rpc/Infrastructure/RpcSharedStream.cs:121-124 | bufferStart never moves backward and the number of pulls never decreases |
| StreamFlow.RespondPullsNothingAfterEnd | src/Stl.Rpc/Infrastructure/RpcSharedStream.cs:142-145 | once the terminal item is buffered a pass pulls nothing more |
| StreamFlow.RespondEndsExact | src/Stl.Rpc/Infrastructure/RpcSharedStream.cs:118-182 | a pass reports InvalidPosition only past the terminal item or for a drained index that fell before the trimmed buffer; otherwise its Ends are exact as for the send loop |
| StreamFlow.RespondBufferBound | src/Stl.Rpc/Infrastructure/RpcSharedStream.cs:122-141 | the buffer never holds more than AckAdvance + 1 items while the acknowledged position does not run ahead of what was produced |
| StreamFlow.SentinelReleasesWithoutSending | src/Stl.Rpc/Infrastructure/RpcSharedStream.cs:111-112 | the sentinel ends the worker with nothing sent, exactly when the batch holds it |
| StreamFlow.RoundNeverBacksUp | src/Stl.Rpc/Infrastructure/RpcSharedStream.cs:100-182 | without resets a pass never moves index backward |
| StreamFlow.NoItemResentWithoutReset | src/Stl.Rpc/Infrastructure/RpcSharedStream.cs:100-182 | without resets no item is sent twice: every Item of a pass lies past every Item of the pass before |
| StreamFlow.ReplayedAckSendsNothing | src/Stl.Rpc/Infrastructure/RpcSharedStream.cs:114-137 | replaying an ack after a pass that filled the window sends nothing more and leaves index where it was |
| StreamFlow.TwoItemsFirstWindow | src/Stl.Rpc/Infrastructure/RpcSharedStream.cs:137-182 | from the start, a window of 4 over a two-item producer pulls and sends both items and the End without error |
| StreamFlow.FirstRoundSendsAll | src/Stl.Rpc/Infrastructure/RpcSharedStream.cs:100-182 | on a two-item producer with AckAdvance 4, the first reset to 0 sends both items and the End without error and leaves index past the terminal item |
| StreamFlow.SecondRoundReportsInvalidPosition | src/Stl.Rpc/Infrastructure/RpcSharedStream.cs:129-145 | after that, an ack for position 2 is answered with End(3, InvalidPosition) |
| StreamFlow.AckAfterEndReportsInvalidPosition | src/Stl.Rpc/Infrastructure/RpcSharedStream.cs:100-182 | an ack that arrives after the terminal End is answered with End(index, InvalidPosition) |
| SharedStreams.DecideAck | src/Stl.Rpc/Infrastructure/RpcSharedStream.cs:62-83 | each of the four outcomes of OnAck, as an if-and-only-if over the host ids, the worker's status and NextIndex |
| SharedStreams.DrainAcks | src/Stl.Rpc/Infrastructure/RpcSharedStream.cs:103-119 | the ack-draining loop computes Drain |
| SharedStreams.PullMissing | src/Stl.Rpc/Infrastructure/RpcSharedStream.cs:140-176 | the pull loop either buffers the position and leaves SendLoop unchanged from there, or is where SendLoop ends: InvalidPosition past the sequence's end, nothing when an ack interrupts |
| SharedStreams.SendWindow | src/Stl.Rpc/Infrastructure/RpcSharedStream.cs:137-182 | the send loop computes SendLoop: the same final worker state and the same messages |
| SharedStreams.RpcSharedStream.constructor | src/Stl.Rpc/Infrastructure/RpcSharedStream.cs:13-49 | a new stream is idle, with no acks, nothing sent and the keep-alive time set; `registered` starts true because the model begins from a stream its creator has already registered (see Left out) |
| SharedStreams.RpcSharedStream.KeepAlive | src/Stl.Rpc/Infrastructure/RpcSharedStream.cs:34-35 | records the clock reading and changes nothing else |
| SharedStreams.RpcSharedStream.OnAck | src/Stl.Rpc/Infrastructure/RpcSharedStream.cs:62-83 | the decision is DecideAck; "missing" is sent exactly for a foreign reset or an ack the worker cannot take; the ack is queued with MustReset = host id given; the first reset to 0 starts the worker; keep-alive is touched except on a foreign reset |
| SharedStreams.RpcSharedStream.RunRound | src/Stl.Rpc/Infrastructure/RpcSharedStream.cs:87-189 | one worker pass does what Round says, keeps the buffer consistent and every message faithful, and on the sentinel finishes the worker and unregisters the stream |
| SharedStreams.RpcSharedStream.Dispose | src/Stl.Rpc/Infrastructure/RpcSharedStream.cs:51-60 | writes the sentinel, stops a running worker and unregisters the stream |
| SystemCalls.Named | src/Stl.Rpc/Infrastructure/RpcSystemCallSender.cs:23-38 | the definitions with a given name, all of them and only them |
| SystemCalls.NamedExactlyOne | src/Stl.Rpc/Infrastructure/RpcSystemCallSender.cs:23-38 | exactly one definition is found by name exactly when exactly one position holds that name |
| SystemCalls.Lookup | src/Stl.Rpc/Infrastructure/RpcSystemCallSender.cs:23-38 | Single succeeds exactly when one definition has the name, returns that definition, and fails with InvalidOperation otherwise |
| SystemCalls.HeaderList.AddRange | src/Stl.Rpc/Infrastructure/RpcSystemCallSender.cs:57 | headers added by PrepareCall go to the end of the list |
| SystemCalls.HeaderList.RemoveAt | src/Stl.Rpc/Infrastructure/RpcSystemCallSender.cs:63 | removes exactly the header at the given position |
| SystemCalls.SystemCallSender.MethodDefOf | src/Stl.Rpc/Infrastructure/RpcSystemCallSender.cs:23-38 | the cached definition or Single's, always what Single finds, cached once found |
| SystemCalls.SystemCallSender.Dispatch | src/Stl.Rpc/Infrastructure/RpcSystemCallSender.cs:40-131 | a system call goes to the definition Single finds, with the given peer, call id, call type, arguments, headers and polymorphism flag; a failed lookup throws InvalidOperation |
| SystemCalls.SystemCallSender.Complete | src/Stl.Rpc/Infrastructure/RpcSystemCallSender.cs:40-45 | a value result gives what Ok gives: the result to the Ok definition Single finds, or, when that lookup or PrepareCall fails, Error with the caught exception and the headers rolled back; an error result is sent as Error with that exception, the headers as given, to the same peer and call, no polymorphism |
| SystemCalls.SystemCallSender.Ok | src/Stl.Rpc/Infrastructure/RpcSystemCallSender.cs:47-69 | on success the result goes to the Ok definition Single finds, for the same peer and call, with the caller's polymorphism flag; on failure the header list is restored to its length at entry, an emptied list becomes null, and Error carries the caught exception |
| SystemCalls.SystemCallSender.RollBack | src/Stl.Rpc/Infrastructure/RpcSystemCallSender.cs:61-63 | removes headers from the end until the list is back to its entry length, leaving the first headers untouched |
| SystemCalls.SystemCallSender.Error | src/Stl.Rpc/Infrastructure/RpcSystemCallSender.cs:71-79 | the exception's info to the Error definition Single finds, same peer and call, regular call type, no polymorphism; InvalidOperation when Single fails |
| SystemCalls.SystemCallSender.Cancel | src/Stl.Rpc/Infrastructure/RpcSystemCallSender.cs:81-89 | an empty argument list to the Cancel definition Single finds, same peer and call, no polymorphism |
| SystemCalls.SystemCallSender.GetStream | src/Stl.Rpc/Infrastructure/RpcSystemCallSender.cs:91-100 | an empty argument list to the GetStream definition Single finds, with the Stream call type |
| SystemCalls.SystemCallSender.StreamStart | src/Stl.Rpc/Infrastructure/RpcSystemCallSender.cs:102-110 | the item type reference to the StreamStart definition Single finds, no polymorphism |
| SystemCalls.SystemCallSender.StreamItem | src/Stl.Rpc/Infrastructure/RpcSystemCallSender.cs:112-120 | the item to the StreamItem definition Single finds, always with polymorphism allowed |
| SystemCalls.SystemCallSender.StreamEnd | src/Stl.Rpc/Infrastructure/RpcSystemCallSender.cs:122-131 | the info of the error, which may be null, to the StreamEnd definition Single finds, no polymorphism |
| RpcConfiguration.ArgumentListOf | src/Stl.Rpc/Configuration/RpcMethodDef.cs:26-28 | the argument-list type has the arity of the parameter list and is closed over exactly those types |
| RpcConfiguration.TypeNames | src/Stl.Rpc/Configuration/RpcMethodDef.cs:62 | one name per remote parameter type, in order |
| RpcConfiguration.Signature | src/Stl.Rpc/Configuration/RpcMethodDef.cs:64 | `'Name': (argument types) -> return type`, followed by " - invalid" for an invalid method (SignatureMarksInvalid; ToString returns it) |
| RpcConfiguration.SignatureMarksInvalid | src/Stl.Rpc/Configuration/RpcMethodDef.cs:64 | an invalid method's signature is the valid one followed by " - invalid", and both start with the quoted name |
| RpcConfiguration.RemoveCancellationSlot | src/Stl.Rpc/Configuration/RpcMethodDef.cs:30-36 | a new array holding the parameter types without the one at the cancellation index, in order |
| RpcConfiguration.HasObjectTyped | src/Stl.Rpc/Configuration/RpcMethodDef.cs:46 | true exactly when some remote parameter type is object |
| RpcConfiguration.RpcMethodDef.constructor | src/Stl.Rpc/Configuration/RpcMethodDef.cs:22-55 | remote parameters are the parameters without the CancellationToken, in order, or the parameters themselves without one; the flags for object-typed arguments, no-wait, polymorphism (system or backend service) and validity (valid and async) |
| RpcConfiguration.RpcMethodDef.ToString | src/Stl.Rpc/Configuration/RpcMethodDef.cs:57-65 | the signature, computed once and then served from the cache |
| Serialization.EncodeChars | src/Stl/Serialization/TextOrBytes.cs:33-34 | a text takes two bytes per char |
| Serialization.DecodeChars | src/Stl/Serialization/TextOrBytes.cs:68 | the bytes are read back two per char |
| Serialization.DecodeEncode | src/Stl/Serialization/TextOrBytes.cs:33-34 | reading a text's bytes back as chars gives the text |
| Serialization.FromText | src/Stl/Serialization/TextOrBytes.cs:29-34 | a text value has the Text format and two bytes per char |
| Serialization.FromBytes | src/Stl/Serialization/TextOrBytes.cs:31-36 | a bytes value has the Bytes format and holds the bytes |
| Serialization.EmptyValues | src/Stl/Serialization/TextOrBytes.cs:20-27 | the empty constants are empty in their own format; a value is empty exactly when built from nothing |
| Serialization.BytesOf | src/Stl/Serialization/TextOrBytes.cs:24 | a fresh array holding the data |
| Serialization.IsText | src/Stl/Serialization/TextOrBytes.cs:65-74 | true exactly for the Text format; otherwise the chars are empty |
| Serialization.IsTextRoundTrip | src/Stl/Serialization/TextOrBytes.cs:65-74 | the char view of a text gives back that text; a bytes value has none |
| Serialization.IsBytesAsWritten | src/Stl/Serialization/TextOrBytes.cs:76-85 | as written, true exactly for the Text format, handing out the data when true and an empty array when false |
| Serialization.IsBytesAsWrittenIsInverted | src/Stl/Serialization/TextOrBytes.cs:76-85 | as written, a bytes value is not seen as bytes and a text is |
| Serialization.IsBytes | src/Stl/Serialization/TextOrBytes.cs:76-85 | as intended: true exactly for the Bytes format, with the data; otherwise empty |
| Serialization.ViewsPartition | src/Stl/Serialization/TextOrBytes.cs:65-85 | exactly one of the two views applies, and the bytes view gives back the bytes a value was built from |
| Serialization.Hex | src/Stl/Serialization/TextOrBytes.cs:50 | two hex digits per byte |
| Serialization.UnHexHex | src/Stl/Serialization/TextOrBytes.cs:50 | the hex rendering can be read back into the bytes |
| Serialization.HexHasNoDot | src/Stl/Serialization/TextOrBytes.cs:50 | hex digits never contain a dot, so the data part cannot fake the "..." marker |
| Serialization.ShownIsPrefix | src/Stl/Serialization/TextOrBytes.cs:48-50 | the data shown is the first min(length, maxLength) chars or bytes |
| Serialization.IsEmpty | src/Stl/Serialization/TextOrBytes.cs:27 | empty exactly when the data has no bytes (EmptyValues: the empty constants, and values built from nothing) |
| Serialization.ToStringAsWritten | src/Stl/Serialization/TextOrBytes.cs:44-59 | ToString(maxLength) as written: a rendering for every maxLength that is not negative; the "..." marker exactly when nothing was cut (EllipsisAsWrittenMarksUncut) |
| Serialization.ToString | src/Stl/Serialization/TextOrBytes.cs:44-59 | ToString(maxLength) as intended: a rendering for every maxLength that is not negative; the "..." marker exactly when the data was cut (EllipsisMarksCut) |
| Serialization.ToStringDefault | src/Stl/Serialization/TextOrBytes.cs:42-43 | ToString(64) as written (DefaultShowsSixtyFour) |
| Serialization.Render | src/Stl/Serialization/TextOrBytes.cs:44-59 | a negative maxLength makes the slice throw; any other gives a rendering |
| Serialization.RenderMarks | src/Stl/Serialization/TextOrBytes.cs:56-58 | the rendering ends with "... ]" exactly when the marker is asked for |
| Serialization.EllipsisAsWrittenMarksUncut | src/Stl/Serialization/TextOrBytes.cs:56-58 | as written, the "..." marker appears exactly when nothing was cut |
| Serialization.EllipsisAsWrittenExample | src/Stl/Serialization/TextOrBytes.cs:56-58 | as written, one byte shown in full gets "...", and two bytes cut to one do not |
| Serialization.EllipsisMarksCut | src/Stl/Serialization/TextOrBytes.cs:56-58 | as intended, the "..." marker appears exactly when the data was cut |
| Serialization.DefaultShowsSixtyFour | src/Stl/Serialization/TextOrBytes.cs:42-43 | ToString() is the rendering of ToString(64) as written: at most 64 elements shown, and the "..." marker exactly when the data has 64 elements or fewer |

## Left out

- Concurrency is not modelled: the lock in OnAck, the channel and its readers, and the tasks. OnAck and the worker's passes are separate atomic steps. A pass reads the acks queued at its start, and the `Race` input stands for an ack that arrives while it pulls.
- The `Channel` and `Task.WhenAny` mechanics that decide the race are reduced to the `Race` input.
- The clock (`CpuTimestamp.Now`) is a parameter.
- The producer's prefetch is not modelled. `SafeMoveNext` starts the next move right after an item is taken; in the model each pull is one atomic step.
- `MoveNextAsync` completing synchronously versus asynchronously is not modelled.
- `RingBuffer`'s fixed capacity is not modelled. The buffer is a sequence, and its length is bounded by `StreamFlow.RespondBufferBound` while the acknowledged position does not run ahead of what was produced.
- `AckPeriod` and the `ackIndex` computed from it (line 127) are left out, because nothing in `OnRun` reads `ackIndex`.
- Integers are unbounded. The 64-bit wrap of `NextIndex + AckAdvance` and the `(int)` casts of buffer offsets are not modelled.
- SharedStreams.RpcSharedStream.RunRound: ends the worker only on the sentinel. `OnRun` also leaves its loop when a send throws (lines 131, 144 and 179) or when the wait for an ack is cancelled (line 106). The `finally` block (lines 185-187) then disposes the stream. The model does not capture those exits or the messages sent before them; `Dispose` on a running stream is the state they end in.
- Registration is not modelled. A stream is added to the peer's shared objects outside `RpcSharedStream.cs`, and the model starts from a stream its creator has already registered.
- The asynchronous parts of disposal are left out: the `finally` block's disposal of the enumerator, and the awaiting of `DisposeAsync`. `Dispose` models the sentinel, the stop and the unregistration.
- The messages the stream sends are kept as the `Outgoing` record. The stream calls the sender's `Item`, `End` and `Disconnect` methods, which are not among the sender methods modelled here.
- `ToExceptionInfo` is reduced to carrying the exception.
- Serialization of arguments is not modelled.
- `RpcOutboundContext.PrepareCall` and `SendNoWait` are recorded as the `OutboundCall` value.
- SystemCalls.SystemCallSender.Ok: the headers `PrepareCall` adds on success are not modelled, because on success the model leaves the caller's list as it was.
- The `NotFound` definition is looked up like the others, but the sender has no method that sends it.
- Reflection is reduced to data. A CLR type is a `ClrType` value. What the base `MethodDef` computes is the `MethodShape` input. The name `MethodNameBuilder` produces is a parameter. `MakeGenericType` is the `ArgumentListOfTypes` value. `GetName` gives a fixed name per type.
- The `BitConverter.ToString` rendering used before .NET 5 (lines 52-54) is left out. Only the `Convert.ToHexString` branch is modelled.
- `Cast<char, byte>` is modelled as little-endian, two bytes per char. For text data of odd length, the trailing byte is dropped from the char view.
- Two further files are not part of this model, because no operation of the modelled core depends on them: `src/Stl.Fusion.EntityFramework/Internal/Errors.cs` and `src/Stl.Fusion.EntityFramework.Npgsql/Operations/NpgsqlDbOperationLogChangeNotifier.cs`.

## Findings

| source | as written | input that shows it | evidently intended | confidence | as-written member | corrected member |
|---|---|---|---|---|---|---|
| src/Stl/Serialization/TextOrBytes.cs:76-85 | `IsBytes` tests for the Text format, so it returns the data of a text and false for bytes | `new TextOrBytes(new byte[] { 1 }).IsBytes(out _)` is false; a text value answers true | true exactly for the Bytes format, so that exactly one of `IsText` and `IsBytes` applies | high, not executed | Serialization.IsBytesAsWrittenIsInverted | Serialization.ViewsPartition |
| src/Stl/Serialization/TextOrBytes.cs:56-58 | the "..." marker is added when `maxLength` is not below the length, that is when nothing was cut | one byte at `ToString(64)` renders `[ 1 byte(s): 01... ]`; two bytes at `ToString(1)` render without the marker | the marker exactly when the data was cut (`maxLength < length`) | high, not executed | Serialization.EllipsisAsWrittenExample | Serialization.EllipsisMarksCut |

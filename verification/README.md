# Comet TCP connection core, modelled in Dafny

This project models the per-connection core of the goim comet server (`comet/tcp_server.go`):

- the binary frame codec (`readTCPRequest`, `writeTCPResponse`);
- the handshake (`authTCP`) and the registration/teardown of the session key in `serveTCP`;
- the drain loops of the write task (`dispatchTCP`), with the concurrency removed.

A frame is a 16-byte big-endian header followed by an optional body. The header holds the
packet length (4 bytes, signed), the header length (2), the version (2), the operation (4) and
the sequence id (4). Go's signed `int16`/`int32` and their wrap-around are written out
explicitly in `bytes.dfy`. A nil body is `None`; a non-nil body is `Some(bytes)`.

Modules, one per concern:

| file | module | models |
|---|---|---|
| `wrappers.dfy` | `Wrappers` | `Option`/`Result` in place of nil and `err` |
| `bytes.dfy` | `BigEndian` | `BigEndian.Int16/Int32/PutInt16/PutInt32`, two's complement, `int32` wrap-around |
| `frame.dfy` | `Proto` | the `Proto` frame, header constants, the reserved operation codes |
| `codec.dfy` | `Codec` | `readTCPRequest`, `writeTCPResponse`, and the decoder exactly as written (see Findings) |
| `serve.dfy` | `Serve` | `authTCP`, the handshake prefix of `serveTCP`, its read loop and its teardown |
| `dispatch.dfy` | `Dispatch` | `dispatchTCP`: inbound drain, outbound drain, wake-up loop |
| `connection.dfy` | `Connection` | both halves composed, and the end-to-end scenario |

The collaborators whose code is outside this model are parameters.

- **Connect**: the operator's `Connect` is `connect: Frame -> Option<Grant>`. `None` is its error.
- **Operate**: the operator's `Operate` is `operate: Frame -> Option<Frame>`. It returns the frame it mutated into a reply.
- **Timer**:
  - `trd.Lazy(hb)` is the oracle `lazy(i)`, indexed by the inbound frame the write task is handling.
  - The success of each `tr.Add` is the oracle `rearmOk(i)`.
  - The success of the two initial adds is `timerOk` for the handshake and `startOk` for the write task.
- **Writes**: the outcome of each `writeTCPResponse` (write plus flush) is `writeOk(n)`, indexed by the number of frames already written. For the handshake reply it is `replyWriteOk`.
- **Operation codes**: `OP_AUTH`, `OP_AUTH_REPLY`, `OP_HEARTBEAT` and `OP_HEARTBEAT_REPLY` are defined outside this model. They form the `OpCodes` record, and `Distinct()` states that they differ.
- **Bucket**: the bucket is a single `map<string, nat>` from session key to connection. `Put` overwrites an existing entry, so the last writer wins. `Del` removes the key.
- **Wake-ups**: the write task sees a sequence of wake-ups. `Ready(cli, svr)` means a `ProtoReady` signal found `cli` in the inbound queue and `svr` in the outbound queue. `Finish` is the reader's finish signal, the value 0.

Two behaviours of the code need a word.

- **Body length.** A packet length of 16 or less, negative ones included, is meant to give a bodyless frame. Line 240 computes the body length in `int32`, and for packet lengths below -2^31+16 that wraps to about 2^31 (see Findings). `Codec.DecodeAsWritten` models the code as written. Every other member, the handshake and read loop included, uses the corrected `Codec.Decode`.
- **Empty bodies.** A body is meant to come back as it was sent. Lines 282-287 write nothing for an empty non-nil body, and lines 242-249 read a zero-length body back as nil. The model follows the code: `Proto.Normalize` states this, and the round trip is stated up to it.

## Model

| member | source | states |
|---|---|---|
| BigEndian.Int32RoundTrip | comet/tcp_server.go:212-238 | reading four big-endian bytes written for any int32 gives that int32 back |
| BigEndian.PutInt32Onto | comet/tcp_server.go:257-281 | every 4-byte string is the big-endian encoding of the int32 it decodes to |
| BigEndian.FromToBE | comet/tcp_server.go:212 | the unsigned value of an n-byte big-endian encoding is the value encoded |
| BigEndian.ToFromBE | comet/tcp_server.go:220 | the n-byte encoding of the value of n bytes is those bytes |
| Codec.Decode | comet/tcp_server.go:203-252 | a successful decode consumes at least the 16 header bytes and leaves a suffix of its input; its body has at most 1008 bytes and is never empty-but-present |
| Codec.Encode | comet/tcp_server.go:255-289 | the encoding has exactly 16 + len(body) bytes |
| Codec.DecodeRejectsPackLen | comet/tcp_server.go:209-216 | a packet length above 1024 fails with ErrProtoPackLen after the 4 length bytes, whatever follows them |
| Codec.DecodeRejectsHeaderLen | comet/tcp_server.go:217-224 | for any accepted packet length, a header length other than 16 fails with ErrProtoHeaderLen, whatever follows |
| Codec.DecodeErrors | comet/tcp_server.go:203-252 | decoding succeeds exactly when both checks pass and the input holds header and body; each error's exact condition |
| Codec.DecodeFields | comet/tcp_server.go:225-250 | version, operation, sequence id are the big-endian values at offsets 6, 8, 12; the body is packLen-16 bytes when positive, nil otherwise (negative lengths included) |
| Codec.EncodeLayout | comet/tcp_server.go:257-288 | the encoding carries 16+len(body) (wrapped to int32), 16, version, operation, sequence id, then the body bytes |
| Codec.RoundTrip | comet/tcp_server.go:203-289 | a frame with a body of at most 1008 bytes decodes back from its encoding (empty body as nil), leaving following bytes unread |
| Codec.EncodeOversizeRejected | comet/tcp_server.go:214-216 | the encoding of a frame with a body over 1008 bytes (and below the int32 wrap) is refused with ErrProtoPackLen |
| Codec.EncodeLengthWraps | comet/tcp_server.go:257 | a body of 2^32-16 bytes is announced as length 0 and decodes as a bodyless frame with the body left unread |
| Codec.DecodeAsWritten | comet/tcp_server.go:240-250 | the decoder with the 32-bit body-length subtraction; a success still consumes the header |
| Codec.AsWrittenAgreesElsewhere | comet/tcp_server.go:240 | the decoder as written and the corrected one agree for every packet length from -2^31+16 up |
| Codec.AsWrittenBodyLenOverflows | comet/tcp_server.go:240 | below that, the body length as written is packLen-16+2^32, above the 1024 bound |
| Codec.AsWrittenCounterexample | comet/tcp_server.go:212-250 | for header bytes 80 00 00 00 00 10 the corrected decoder yields a bodyless frame, the one as written a short read |
| Codec.AsWrittenAcceptsHugeBody | comet/tcp_server.go:240-247 | as written, packet length -2^31 with enough input yields a body of 2^31-16 bytes |
| Serve.Auth | comet/tcp_server.go:179-200 | a read error or a non-OP_AUTH first frame fails; it fails with ConnectFailed exactly when Connect refuses an OP_AUTH frame and with ReplyWriteFailed exactly when the reply's write fails after Connect granted; it succeeds exactly when the frame is OP_AUTH, Connect grants and the write succeeds, and the reply keeps ver and seq, has nil body and OP_AUTH_REPLY |
| Serve.AuthSkipsConnect | comet/tcp_server.go:184-188 | a non-OP_AUTH first frame fails with ErrOperation whatever Connect would answer |
| Serve.Admit | comet/tcp_server.go:30-50 | a failed handshake timer add fails with HandshakeTimerFailed before any read; otherwise the outcome is Auth's; the handshake succeeds exactly when the timer add and Auth succeed; a failed handshake leaves the registry unchanged; a successful one Puts key to this connection and keeps every other entry |
| Serve.ReadLoop | comet/tcp_server.go:53-72 | every frame the read loop commits has a body of at most 1008 bytes |
| Serve.ReadLoopEncoded | comet/tcp_server.go:53-72 | frames written back to back are committed in order, each normalised, and the loop ends on a short read |
| Serve.ServeConn | comet/tcp_server.go:17-98 | the handshake is Admit's and succeeds exactly when the timer add and Auth succeed; a served session's inbound frames are what the read loop commits from the bytes after the handshake; a failed handshake registers nothing, commits nothing, disconnects nothing; a served session is registered while served, removed after, and disconnected exactly once |
| Dispatch.HandleOne | comet/tcp_server.go:125-151 | one inbound frame is handled exactly when its answer exists, any re-arm's Add succeeds and the write succeeds; re-arms grow by one exactly for a heartbeat outside the lazy window; a failure writes nothing |
| Dispatch.DrainClient | comet/tcp_server.go:120-152 | the drain handles at most all inbound frames, writes one frame per frame handled, and stops early exactly when something failed |
| Dispatch.DrainClientAnswers | comet/tcp_server.go:120-152 | the handled frames are answered in arrival order with their reference answers; an early stop names the failing timer add, Operate or write |
| Dispatch.HeartbeatsBypassOperate | comet/tcp_server.go:125-146 | Operate is never consulted for a heartbeat: operators agreeing on non-heartbeat frames give the same drain |
| Dispatch.HeartbeatReplies | comet/tcp_server.go:136-138 | every heartbeat reply keeps ver and seq, has nil body and OP_HEARTBEAT_REPLY |
| Dispatch.DrainClientRearms | comet/tcp_server.go:125-135 | the timer is re-armed exactly once per reached heartbeat outside the lazy window, never otherwise |
| Dispatch.DrainServer | comet/tcp_server.go:154-165 | server frames are written verbatim and in order until a write fails; nothing else changes |
| Dispatch.Round | comet/tcp_server.go:119-165 | one wake-up only appends to what was written and never decreases the handled and re-arm counts; an inbound failure ends the wake-up with the outbound queue left undrained; otherwise the outbound drain follows the inbound one |
| Dispatch.RoundOrder | comet/tcp_server.go:119-165 | a wake-up without failure writes the inbound answers in arrival order, then the server frames verbatim |
| Dispatch.Loop | comet/tcp_server.go:115-166 | the wake-up loop only appends output; it is still waiting only if no finish signal came; a finish signal first ends the task with nothing drained |
| Dispatch.LoopAppend | comet/tcp_server.go:115-166 | the loop over two runs of wake-ups is the loop over the first, followed by the loop over the second only if the first left the task waiting |
| Dispatch.LoopStopsAtFirst | comet/tcp_server.go:115-166 | the task ends at the first finish signal with nothing more drained, or at the first failing wake-up with that failure; later wake-ups are never seen |
| Dispatch.DispatchTCP | comet/tcp_server.go:111-114 | if the heartbeat timer cannot be added the task fails having written nothing |
| Dispatch.OperateFailureStops | comet/tcp_server.go:140-145 | an Operate error on inbound frame k ends the task with OperateFailed after at most k frames |
| Connection.ServeScenario | comet/tcp_server.go:30-72 | AUTH(seq 1) followed by two frames: the handshake succeeds and both frames reach the inbound queue |
| Connection.Handshake | comet/tcp_server.go:30-50 | an OP_AUTH first frame that Connect accepts registers the granted key, is answered with OP_AUTH_REPLY, and the read loop goes on from the bytes after it |
| Connection.DispatchScenario | comet/tcp_server.go:120-152 | a heartbeat then a request give the heartbeat reply then the operator's reply |
| Connection.EndToEnd | comet/tcp_server.go:17-200 | AUTH(1), HEARTBEAT(2), request(3): AUTH_REPLY(1, nil body), HEARTBEAT_REPLY(2, nil body), the operator's reply; key registered, removed, disconnected once |

## Left out

- Goroutines, the `Signal` channel and its drop-on-full `select` (lines 52, 66-71, 87-91, 116) are concurrency. The write task instead sees a given sequence of wake-ups, and the reading and writing halves are composed sequentially.
- The `Channel` ring buffers (`CliProto`, `SvrProto`) are not part of this model. The queues are unbounded sequences, so the read loop's exit when `CliProto.Set` fails (lines 55-58) is not modelled.
- The timer internals (`tr.Add`, `tr.Del`, `TimerData.Lazy`) are not part of this model. `Lazy` and each `Add` outcome are oracles, and re-arms are counted. The `Del` of the handshake timer (line 37) and of the heartbeat timer at exit (line 173) leave no trace in the model.
- `conn.Close` (lines 41, 80, 169) and its errors are only logged by the source, so they are not modelled.
- A `bufio` write either succeeds or fails as a whole: a partly written frame is not modelled.
- `ReadAll` is not part of this model. It is taken to read exactly the requested bytes or fail, and every such failure is `ShortRead`.
- Bucket sharding (`server.Bucket`, line 48) is not modelled: the registry is a single map. `Bucket.Del` is not part of this model and is taken to remove the key unconditionally.
- `Disconnect` errors (lines 93-95) are only logged. The model records which keys `Disconnect` was called for.
- The heartbeat interval returned by `Connect` is recorded but not used numerically. It only parameterises the timer.
- Logging is left out.
- Serve.ReadLoop: its own contract states only the body bound. That frames are committed in order and unchanged is proved for encoded streams by `Serve.ReadLoopEncoded`. It runs the corrected `Codec.Decode`, so it differs from the code for packet lengths below -2^31+16, where the code would wait for a body of about 2^31 bytes (see Findings).
- Serve.Auth: it runs the corrected `Codec.Decode`, so it differs from the code for packet lengths below -2^31+16, where the code would wait for a body of about 2^31 bytes (see Findings).
- Serve.ServeConn: it runs the corrected `Codec.Decode` through `Serve.Auth` and `Serve.ReadLoop`, so it differs from the code for packet lengths below -2^31+16, where the code would wait for a body of about 2^31 bytes (see Findings).
- `Connect` is taken not to modify the frame it is given. Line 189 passes it a `*Proto`, and the reply echoes ver and seq only when `Connect` leaves them alone.
- Dispatch.DrainClientRearms: the count covers the frames the drain reached. The `Del` that precedes a failed `Add` is counted as a re-arm.

## Findings

| source | as written | input that shows it | evidently intended | confidence | as-written member | corrected member |
|---|---|---|---|---|---|---|
| comet/tcp_server.go:240 | the body length is the 32-bit difference of the packet length and 16, which wraps for packet lengths below -2^31+16; the only guard is the upper bound of line 214 | header bytes `80 00 00 00 00 10` then 10 more bytes: packet length -2^31 gives a body length of 2^31-16, so the server allocates about 2 GiB and waits for it | a packet length of 16 or less, negative ones included, yields a bodyless frame, and no body exceeds 1008 bytes | high; not executed | Codec.AsWrittenCounterexample | Codec.Decode |

`Codec.DecodeAsWritten` is the decoder as written. `Codec.Decode` is the corrected decoder, and every other member uses it. The contract of `Codec.Decode` bounds every body it yields by 1008 bytes. `Codec.DecodeFields` proves that packet lengths of 16 or less give a nil body.

# ioserverlib message layer, modelled in Dafny

This project models the message layer of the Rust crate `ioserverlib`. The crate exchanges
messages over byte streams. A **serializer** reads one message from a reader (`try_read`,
and the retrying `read`) and writes one message to a writer (`write`). The crate's
JSON serializer frames every message as one line. **Channels** bundle a reader, a writer
and, for the owned shapes, the serializer. A **server** reads a message, hands it to a
handler and writes back the handler's answer, if there is one. The **daemon** repeats
that step on a thread for as long as a shared flag stays set.

Streams are in memory (`Streams.Stream`). Each one holds the bytes put into it, a read
cursor and a count of flushed bytes, and has either unbounded capacity or the fixed
capacity of a `&mut [u8]` writer. The JSON codec is a pair of functions (`encode`,
`decode`) carried by the serializer value `Serializer.LineJson`, and nothing is assumed
about them except where a lemma says so. `Serializer.RoundTrips` states the assumptions:

- the message encodes;
- the encoding is non-empty, holds no newline, has no ASCII whitespace at either end and is UTF-8;
- decoding the encoding gives the message back.

Every operation that changes a stream is a method on the `Stream` objects. Each method
is proved against a function that says what it returns and what it leaves: `ReadLineSpec`,
`WriteAllSpec`, `TryReadSpec`, `ReadSpec`, `WriteSpec`, `UpdateSpec`, `LoopStep` and `RunSpec`.
The lemmas state the crate's promises about those functions:

- framing;
- the write-then-read round trip;
- FIFO order over any number of messages;
- error pass-through;
- the server step's short-circuits;
- the daemon loop's exit conditions.

The modules follow the crate:

- `Wire` covers ASCII whitespace and trimming, line ends and UTF-8.
- `Streams` covers the in-memory streams.
- `Serializer` models `src/serializer.rs`.
- `Channel` models `src/channel.rs`.
- `Server` models `src/server.rs`.
- `PingPong` models the crate-level example in `src/lib.rs`.

A final line without a newline is trimmed and decoded like any other, because `read_line`
returns it as it is (`Wire.LineEnd` stops at the end of the data). `try_read` yields `None`
only for a blank line and at the end of the data.

## Model

| member | source | states |
|---|---|---|
| Streams.Room | src/serializer.rs:50-51 | how many bytes of a `write_all` fit: all of them exactly when the capacity allows, never more than the capacity |
| Streams.ReadLineConsumesLine | src/serializer.rs:34 | `read_line` leaves the data alone, moves the cursor to the end of the line (just past the next newline, or the end of the data), and returns exactly the bytes it passed; at the end of the data it returns nothing and moves nothing |
| Streams.WriteAllAppendsPrefix | src/serializer.rs:50-51 | `write_all` appends a prefix of the bytes: all of them exactly when they fit, which is exactly when it succeeds; the cursor and flushed count do not move |
| Streams.Stream.ReadLine | src/serializer.rs:34 | the byte-by-byte loop of `read_line` does what `ReadLineSpec` says: the line up to and including the newline, `InvalidData` when it is not UTF-8 |
| Streams.Stream.WriteAll | src/serializer.rs:50-51 | the loop of `write_all` does what `WriteAllSpec` says: appends what fits, then `WriteZero` |
| Streams.Stream.Flush | src/serializer.rs:52 | every byte written is flushed; nothing else changes |
| Wire.TrimAsciiTrims | src/serializer.rs:36-38 | `trim_ascii` leaves no ASCII whitespace at either end, and gives an empty result exactly when every byte was whitespace |
| Wire.TrimAsciiPadded | src/serializer.rs:36 | trimming whitespace padding around a trimmed non-empty core gives the core back exactly |
| Wire.LineEnd | src/serializer.rs:34 | the end of a line lies after its start when bytes remain, and is just past a newline or at the end of the data |
| Serializer.LineJson.TryRead | src/serializer.rs:31-45 | `try_read` reads one line, trims it, gives `None` for a blank line and decodes any other line; the result and the stream it leaves are those of `TryReadSpec` |
| Serializer.LineJson.Read | src/serializer.rs:9-15 | the default `read` loop returns what `ReadSpec` says (the first message or the first error of `try_read`) and leaves the stream where `ReadSpec` says |
| Serializer.LineJson.Write | src/serializer.rs:47-55 | `write` encodes, writes the encoding and then a newline, flushes, and returns the first failure; the result and stream are those of `WriteSpec` |
| Serializer.TryReadSpec | src/serializer.rs:31-45 | `try_read` consumes exactly one line, whatever it returns |
| Serializer.ReadSpec | src/serializer.rs:9-15 | when `read` returns, it has consumed at least one byte and only moved the cursor |
| Serializer.WriteSpec | src/serializer.rs:47-55 | `write` never moves the read cursor; when encoding fails it returns the JSON error and appends nothing |
| Serializer.TryReadNoneIffBlank | src/serializer.rs:36-44 | `try_read` yields `Ok(None)` exactly when the consumed line is blank; at the end of the data it yields `Ok(None)` and consumes nothing |
| Serializer.TryReadBypassesDecoder | src/serializer.rs:34-43 | a blank line or bytes that are not UTF-8 never reach the decoder: any decoder gives the same step, which is `Ok(None)` or the `InvalidData` error |
| Serializer.TryReadDecodesTrimmedLine | src/serializer.rs:36-41 | a non-blank UTF-8 line is decoded after trimming; a decoded message is returned as `Some` and a decode error is passed on unchanged |
| Serializer.FrameDecodes | src/serializer.rs:31-45 | framing: a message's frame at the cursor is read back by `try_read` and by `read` as that message, consuming exactly the frame |
| Serializer.LineDecodes | src/serializer.rs:31-45 | a newline-terminated wire-safe encoding at the cursor is one line, decoded to its message |
| Serializer.FrameIsLine | src/serializer.rs:34 | a frame at the cursor is exactly the line `read_line` returns, and it is valid UTF-8 |
| Serializer.ReadSkipsEmptyStep | src/serializer.rs:10-13 | a `try_read` that yields `None` and consumes a line leaves the result of `read` to the calls after it, with no other effect |
| Serializer.ReadStopsAtFirstResult | src/serializer.rs:11-12 | the first message or error a `try_read` yields is what `read` returns, unchanged, with the stream that `try_read` left |
| Serializer.ReadReturnsUnlessBlank | src/serializer.rs:9-15 | `read` never returns exactly when everything left to read is ASCII whitespace (including nothing at all) |
| Serializer.WriteAppendsFrame | src/serializer.rs:47-55 | `write` appends a prefix of `encode(m)` plus a newline; it appends and flushes all of it exactly when it fits, and otherwise fails with `WriteZero` and flushes nothing |
| Serializer.WriteThenRead | src/serializer.rs:31-55 | round trip: after a successful `write(m)`, `try_read` and `read` from where the write began yield `m` and consume exactly the written bytes |
| Serializer.FramesConcat | src/serializer.rs:47-55 | the frames of two message sequences written one after the other are the frames of the first followed by those of the second |
| Serializer.FramesAround | src/serializer.rs:47-55 | the frames of a sequence are the frames before message `i`, then its frame, then the frames after it |
| Serializer.WriteEach | src/serializer.rs:47-55 | successive `write` calls, stopping at the first error, leave a well-formed stream |
| Serializer.WriteEachAppendsFrames | src/serializer.rs:47-55 | writing a sequence of encodable messages to an unbounded stream succeeds, appends their frames in order and flushes them |
| Serializer.WriteUnbounded | src/serializer.rs:47-55 | one `write` to an unbounded stream succeeds, appending and flushing exactly the message's frame |
| Serializer.AppendedStep | src/serializer.rs:47-55 | appending the first message's frame and then the rest is the same as appending all of them |
| Serializer.ReadsInOrder | src/serializer.rs:9-15 | among back-to-back frames, the `read` that starts where the first `i` frames end returns message `i` and stops where its frame ends |
| Serializer.FrameInside | src/serializer.rs:47-55 | among back-to-back frames, message `i`'s frame starts where the frames before it end and lies inside the data |
| Serializer.WriteEachThenReadEach | src/serializer.rs:31-55 | FIFO order: after writing `m0 … mn` successfully, the `i`-th `read` returns `mi` and ends where the `(i+1)`-th begins, for every `i` (so writing m1, m2, m3 and then reading three times yields m1, m2, m3) |
| Serializer.ReadsBackAppended | src/serializer.rs:31-55 | reading the stream of appended frames from the end of message `i - 1` returns message `i` |
| Channel.ReadChannel.New | src/channel.rs:107-111 | `into_inner(new(r)) == r` |
| Channel.ReadChannel.IntoInner | src/channel.rs:113-116 | `new(into_inner(c)) == c` |
| Channel.ReadChannel.TryRead | src/channel.rs:119-126 | exactly the serializer's `try_read` on the wrapped reader: same result, same stream |
| Channel.ReadChannel.Read | src/channel.rs:128-134 | exactly the serializer's `read` on the wrapped reader: same result, same stream |
| Channel.WriteChannel.New | src/channel.rs:162-166 | `into_inner(new(w)) == w` |
| Channel.WriteChannel.IntoInner | src/channel.rs:168-171 | `new(into_inner(c)) == c` |
| Channel.WriteChannel.Write | src/channel.rs:174-183 | exactly the serializer's `write` on the wrapped writer: same result, same stream |
| Channel.UniChannel.New | src/channel.rs:214-222 | `into_inner(new(r, w, s)) == (r, w, s)` |
| Channel.UniChannel.IntoInner | src/channel.rs:224-227 | the channel is rebuilt exactly from the parts `into_inner` returns |
| Channel.UniChannel.Transpose | src/channel.rs:229-234 | `transpose` swaps reader and writer and keeps the serializer |
| Channel.TransposeInvolutive | src/channel.rs:229-234 | transposing twice gives back the original channel |
| Channel.TransposeValid | src/channel.rs:229-234 | a transposed channel still owns two distinct streams |
| Channel.UniChannel.TryRead | src/channel.rs:258-261 | `try_read` is the serializer's on the reader and leaves the writer unchanged |
| Channel.UniChannel.Read | src/channel.rs:263-266 | `read` is the serializer's on the reader and leaves the writer unchanged |
| Channel.UniChannel.Write | src/channel.rs:268-271 | `write` is the serializer's on the writer and leaves the reader unchanged |
| Channel.BiChannel.New | src/channel.rs:281-288 | `into_inner(new(t, s)) == (t, s)` |
| Channel.BiChannel.IntoInner | src/channel.rs:290-293 | the channel is rebuilt exactly from the parts `into_inner` returns |
| Channel.BiChannel.Writer | src/channel.rs:301-309 | `writer()` and `reader()` are the same stream |
| Channel.BiChannel.TryRead | src/channel.rs:316-319 | exactly the serializer's `try_read` on the one stream |
| Channel.BiChannel.Read | src/channel.rs:321-324 | exactly the serializer's `read` on the one stream |
| Channel.BiChannel.Write | src/channel.rs:326-329 | exactly the serializer's `write` on the one stream |
| Channel.ChannelState.WithReadSide | src/channel.rs:258-266 | a read changes the writer's state only when reader and writer are one stream |
| Channel.ChannelState.WithWriteSide | src/channel.rs:268-271 | a write changes the reader's state only when reader and writer are one stream |
| Channel.UniChannelParts | src/channel.rs:242-255 | the `reader()`, `writer()` and `serializer()` a `UniChannel` lends out are exactly the parts `into_inner` gives back |
| Channel.BiChannelParts | src/channel.rs:301-314 | a `BiChannel`'s `reader()` and `writer()` are both its one stream, and `serializer()` is the one it owns, as `into_inner` gives them back |
| Channel.OwnedChannel.State | src/channel.rs:237-256 | the channel's state is the state of its reader and of its writer |
| Channel.OwnedChannel.TryRead | src/channel.rs:258-261 | the serializer's `try_read` result, unwrapped and unchanged, with only the reader's side changed |
| Channel.OwnedChannel.Read | src/channel.rs:263-266 | the serializer's `read` result, unchanged, with only the reader's side changed |
| Channel.OwnedChannel.Write | src/channel.rs:268-271 | the serializer's `write` result, unchanged, with only the writer's side changed |
| Channel.SharedWriteThenRead | src/channel.rs:316-329 | on a `BiChannel`'s one stream, a message written when nothing is left unread is what the next `try_read` and `read` return |
| Channel.SplitWriteKeepsReader | src/channel.rs:258-271 | on a `UniChannel`, a write leaves what the next `try_read` returns unchanged |
| Server.UpdateSpec | src/server.rs:82-90 | a completed `update` leaves a well-formed channel of the same shape |
| Server.Server.New | src/server.rs:67-75 | the server holds exactly the given channel and handler |
| Server.Server.Update | src/server.rs:82-90 | `update` reads once, applies the handler, writes the answer if there is one, and returns the first error; result and streams are those of `UpdateSpec` |
| Server.UpdateBlocksIffBlank | src/server.rs:83 | `update` never returns exactly when only whitespace is left to read |
| Server.UpdateReadError | src/server.rs:83 | a failed read is returned unchanged, the handler is not consulted (any other handler gives the same step), and nothing is written |
| Server.UpdateNoResponse | src/server.rs:85-89 | a handler answering `None` gives `Ok(())` with nothing written |
| Server.UpdateWritesResponse | src/server.rs:85-86 | a handler's answer is written exactly once, as one frame after what the writer held, and the write's result (including its error) is the update's result |
| Server.UpdateReadsOnce | src/server.rs:83 | every completed `update` moves the reader's cursor exactly as one `read` does |
| Server.LiveFlag.constructor | src/server.rs:29 | the flag starts set |
| Server.Daemon.Kill | src/server.rs:99-107 | after `kill`, `is_alive` (a read of the shared flag) reports false |
| Server.LoopStep | src/server.rs:35-43 | one pass of the daemon loop: it goes round again only while the flag stays set, and leaves the flag set exactly when it goes round or blocks in `read` |
| Server.LoopStepIgnoresErrorsHandlerOnOk | src/server.rs:36-37 | the errors handler is consulted only on `Err`: when `update` succeeds, any errors handler gives the same pass |
| Server.LoopStepOnError | src/server.rs:37-41 | on an error, a `true` from the errors handler clears the flag and ends the loop, and `false` goes round again with the flag set |
| Server.RunSpec | src/server.rs:35-43 | the loop, bounded by a number of passes, leaves a well-formed channel |
| Server.RunSpecExits | src/server.rs:35-43 | the loop reports a cleared flag exactly when the flag was clear on entry, and ends with it cleared exactly when it was clear or the errors handler asked to stop |
| Server.RunSpecNeverStopsWithoutHandler | src/server.rs:37-40 | an errors handler that never answers `true` never stops the loop |
| Server.Worker.Iterate | src/server.rs:35-43 | one pass of the thread's `while` loop does what `LoopStep` says |
| Server.Worker.Run | src/server.rs:34-44 | the thread's loop, up to a number of passes, does what `RunSpec` says |
| Server.Launch | src/server.rs:27-47 | `daemon` builds the server from the channel and handler and shares a fresh flag, initially set, between the handle and the thread, so `is_alive` reports true |
| Server.KillThenIterate | src/server.rs:35 | once `kill` has landed, the next pass begins no `update`: the streams stay untouched and the loop exits |
| PingPong.StringsRoundTrip | src/lib.rs:63-70 | the example's string messages meet the codec assumptions line framing relies on |
| PingPong.PingPongFrames | src/lib.rs:75-86 | the frames of `"ping"` and `"pong"` are the expected bytes |
| PingPong.PingGetsPong | src/lib.rs:75-86 | one `update` whose next line is `"ping"` consumes that line and writes exactly `"pong"` and a newline, flushed |
| PingPong.ReadsString | src/lib.rs:75-86 | a reader whose next line is a plain string's frame reads that string |
| PingPong.PongWrite | src/lib.rs:75-86 | writing `"pong"` to an unbounded writer appends and flushes its line |
| PingPong.OthersGetNothing | src/lib.rs:80-84 | every plain string message other than `"ping"` (`"pong"` among them) is consumed, and the handler's `None` means nothing is written |
| PingPong.PingInputGetsPong | src/lib.rs:75-86 | with the input `"ping"` and a newline, one `update` writes exactly `"pong"` and a newline |
| PingPong.TwoPingsTwoPongs | src/lib.rs:88-94 | two pings in a row get two pongs, in order, each `update` starting where the previous one left both streams |

## Left out

- `src/client.rs` is not part of this model: it spawns a process and extracts its pipes, which is operating-system plumbing.
- The `stdio`, `stdie` and unix-socket channel constructors (`src/channel.rs:49-101`) are not modelled. They only open standard streams or a socket. Streams here are in memory.
- `AsRef`, `AsMut` and `From` implementations, derive macros, the `PhantomData` fields of `Server` and the `Server::channel` accessor carry no behaviour and are left out.
- The thread spawn and the memory orderings of the `Arc<AtomicBool>` in `daemon` are not modelled. The loop runs sequentially (`Server.Worker.Run`), and a `kill` from another thread is modelled as a `Daemon.Kill` that lands between two passes (`Server.KillThenIterate`).
- `serde_json` is not modelled. `encode` and `decode` are functions carried by the serializer. Properties that need the codec to behave assume it through `Serializer.RoundTrips`. Only the framing half of those assumptions (`WireSafe`: non-empty, no newline, no whitespace at either end, UTF-8) is a property of compact `serde_json` output in general. Whether `decode(encode(m)) == m` holds depends on the message type: a NaN float encodes as `null`, and a map with non-string keys fails to encode.
- The `Serializer` trait is modelled only through its line-JSON implementation. `Serializer.LineJson.Read` is the trait's default `read` loop, proved only over that implementation's `try_read`.
- Handlers are pure functions in the model. A handler's side effects (such as printing to stderr) and any state it keeps between calls are not modelled.
- Server.RunSpecNeverStopsWithoutHandler: presumes a stateless errors handler, a function that never answers `true`; an errors handler whose answer depends on earlier calls is not covered.
- Channel.SharedWriteThenRead: the shared stream of a `BiChannel` is an in-memory loopback buffer, so what is written is what is read back. A socket's two independent directions (a `BiChannel` over a `UnixStream`, `src/channel.rs:91-101`) are not modelled, and `UpdateSpec` on a `Shared` channel lets the server read back its own answer.
- `read_line` on a real transport can fail in other ways (interrupted, disconnected). The in-memory streams produce only `InvalidData` for bytes that are not UTF-8. Only `WriteZero` is produced, for a full fixed-size writer.
- Serializer.LineJson.Read: requires something other than whitespace to be left to read. On whitespace-only input the source loops forever, and a method of the model must terminate. `Serializer.ReadSpec` models that case as `NeverReturns`, and `Serializer.ReadReturnsUnlessBlank` proves it happens exactly then.
- Server.Server.Update: requires something other than whitespace to be left to read, for the same reason. `Server.UpdateSpec` models the other case as `Blocks` (`Server.UpdateBlocksIffBlank`).
- Server.Worker.Run: covers at most a given number of passes, because the daemon loop need not terminate. Passes that would block in `read` end the run with `Blocked`.
- The three-message ordering instance is not a separate lemma. `Serializer.WriteEachThenReadEach` states it for every sequence and every index.
- Waiting for more bytes on a live transport is not modelled. The in-memory data is all there is, so "no message yet" arises only at blank lines and at the end of the data.

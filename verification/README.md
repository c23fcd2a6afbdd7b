# WalkiTalkie connection manager, modelled in Dafny

WalkiTalkie is an Android walkie-talkie app. Peers join a Wi-Fi Direct group,
open TCP sockets to each other, and exchange text messages and recorded audio
files. `ConnectionManager` owns the socket side of this:

- the registry `socketOutputMap`, which maps each open socket to its
  `DataOutputStream`;
- the two broadcast senders;
- one reader loop per socket, which decodes frames and invokes the chat
  screen's callbacks;
- the teardown, which closes a socket and asks for the Wi-Fi Direct group to
  be removed.

The model is split into four modules.

- `Wire` (`wire.dfy`): the byte layout.
  - The `DataOutput.writeUTF` encoding is a 2-byte big-endian length, then
    the bytes. `DataOutput.writeLong` is 8 bytes, big-endian, two's
    complement.
  - `readUTF` and `readLong` are the matching parsers.
  - The text frame is `"TEXT"`, then the message. The audio frame is
    `"AUDIO_FILE"`, then the 64-bit length, then the payload.
  - Strings are their already-encoded modified UTF-8 bytes.
- `Protocol` (`protocol.dfy`): what the reader does with the bytes of one
  socket, as functions over the bytes not yet read.
  - `Step` is one pass of the `handleClientSocket` loop.
  - `ReceiveAudio` is `receiveAndSaveAudio`.
  - `Decode` is a whole reader session: the callbacks invoked, the last
    audio file written, and why the loop ended.
  - This module also holds the round-trip, frame-boundary, unknown-tag,
    missing-context and truncation lemmas.
- `Streams` (`streams.dfy`): the byte sources.
  - `DataInput` is a `DataInputStream` over a socket, with a read position.
  - Its `read` may return any number of bytes from 1 up to the amount asked
    for.
  - Once its bytes are used up it returns -1, or it throws an IOException
    (`StreamEnd`).
  - `CopyFile` is the 4096-byte copy loop of `sendAudioFile`.
- `Connections` (`connection_manager.dfy`): the class `ConnectionManager`.
  - The registry is a `map` from socket to the bytes written through it.
  - The class also records the closed sockets, the callbacks invoked, the
    received audio file and the group-removal requests.
  - Every operation is a method that updates the object's fields.
    `SendMessageToAll`, `SendAudioFile`, `HandleClientSocket` and
    `ReceiveAndSaveAudio` keep the source's loops, with their invariants.
    `AddSocket` and `CloseSocketAndRemove` have no loop.
  - The reader methods are proved equal to the `Protocol` functions.

Three things are parameters of the model rather than part of it:

- which socket writes throw (`failing`);
- whether `getOutputStream` succeeds (`outputOk`);
- whether `appContext`, `messageCallback` and the Wi-Fi Direct manager and
  channel are set (constructor constants).

Short reads are nondeterministic choices.

Truncated audio: the code does not check that the declared L bytes arrived.
When the peer closes the stream early, `receiveAndSaveAudio` leaves its copy
loop and still posts the audio callback with the short file. The model
follows the code (`Protocol.TruncatedAudio`). A design that wants truncated
audio dropped is not what the code does.

## Model

| member | source | states |
|---|---|---|
| Wire.Be16 | app/src/main/java/com/example/myapplication/ConnectionManager.java:86-87 | the 2-byte length prefix of `writeUTF` reads back, as an unsigned short, to the length |
| Wire.Utf | app/src/main/java/com/example/myapplication/ConnectionManager.java:86-87 | `writeUTF` output is 2 bytes longer than the string and ends with the string itself |
| Wire.ParseUtf | app/src/main/java/com/example/myapplication/ConnectionManager.java:129 | a successful `readUTF` reads at most 65535 bytes, and the bytes it consumed are exactly the `writeUTF` encoding of what it returns |
| Wire.UtfRoundTrip | app/src/main/java/com/example/myapplication/ConnectionManager.java:129-134 | `readUTF` after `writeUTF(s)` returns `s`, whatever follows on the stream |
| Wire.Be64 | app/src/main/java/com/example/myapplication/ConnectionManager.java:106 | `writeLong` writes exactly 8 bytes for every 64-bit value |
| Wire.ParseLong | app/src/main/java/com/example/myapplication/ConnectionManager.java:157 | `readLong` succeeds exactly when 8 bytes remain, and then yields a signed 64-bit value |
| Wire.LongRoundTrip | app/src/main/java/com/example/myapplication/ConnectionManager.java:157 | `readLong` after `writeLong(v)` returns `v`, negative values included |
| Wire.FromBigEndianBound | app/src/main/java/com/example/myapplication/ConnectionManager.java:157 | n big-endian bytes denote a value below 256^n |
| Wire.BigEndianRoundTrip | app/src/main/java/com/example/myapplication/ConnectionManager.java:106 | decoding the big-endian bytes of a value that fits the width gives the value back |
| Wire.TextFrame | app/src/main/java/com/example/myapplication/ConnectionManager.java:86-87 | a text frame is 8 bytes longer than its message: the two length prefixes and "TEXT" |
| Wire.AudioFrame | app/src/main/java/com/example/myapplication/ConnectionManager.java:104-113 | an audio frame is 20 bytes longer than its payload: tag prefix, "AUDIO_FILE" and the 8-byte length |
| Wire.TextWireAsWritten | app/src/main/java/com/example/myapplication/ConnectionManager.java:86-87 | one text send as written: the "TEXT" tag always goes out; a message that fits follows it, exactly as in the corrected send; an oversized one leaves the 6-byte tag alone |
| Wire.TextWire | app/src/main/java/com/example/myapplication/ConnectionManager.java:86-87 | with the length checked first, one text send writes a whole text frame or nothing, and it writes the frame whenever the message fits |
| Protocol.ReceiveAudio | app/src/main/java/com/example/myapplication/ConnectionManager.java:156-179 | the length is read first and a missing context stops before any payload byte; never more than L payload bytes are consumed; it stops short only at end of stream; the file and the posted callback hold exactly the bytes read; an IOException keeps the partial file and posts nothing |
| Protocol.Step | app/src/main/java/com/example/myapplication/ConnectionManager.java:127-144 | a pass that goes on consumes at least the tag and never more than the stream holds; a failed tag read ends the loop |
| Protocol.Decode | app/src/main/java/com/example/myapplication/ConnectionManager.java:127-145 | the whole reader loop over a socket's bytes ends only on an exception (a read failure, or the missing context when there is none), never on the loop condition; it invokes at most one callback per two bytes read |
| Protocol.TextFrameStep | app/src/main/java/com/example/myapplication/ConnectionManager.java:129-136 | a text frame is read as one `onTextMessageReceived` with exactly its message, and the next tag is read right after the frame |
| Protocol.AudioFrameStep | app/src/main/java/com/example/myapplication/ConnectionManager.java:130-132 | with a context, a complete audio frame is read as one audio callback with exactly its payload, the file holds the payload, and the next tag starts right after it |
| Protocol.FrameStep | app/src/main/java/com/example/myapplication/ConnectionManager.java:127-140 | any sendable frame is read as its own callback and consumes exactly its own bytes |
| Protocol.DecodeAfterFrame | app/src/main/java/com/example/myapplication/ConnectionManager.java:127-145 | reading a frame and then anything gives the frame's callback followed by the session of what comes after |
| Protocol.DecodeFrames | app/src/main/java/com/example/myapplication/ConnectionManager.java:127-170 | frame boundary: a run of complete frames followed by anything is read as the frames' callbacks in order, then what follows is read exactly as if it came first |
| Protocol.DecodeRoundTrip | app/src/main/java/com/example/myapplication/ConnectionManager.java:127-145 | a stream of encoded frames closed by the peer is read as exactly the frames' callbacks in order, the file holds the last audio payload, and the loop ends on the EOFException |
| Protocol.UnknownTagSkipped | app/src/main/java/com/example/myapplication/ConnectionManager.java:138-140 | a tag that is neither "AUDIO_FILE" nor "TEXT" fires no callback, and the session continues with the next tag |
| Protocol.MissingContextStops | app/src/main/java/com/example/myapplication/ConnectionManager.java:157-160 | without a context, an audio frame stops the loop after the length with no file written and no callback |
| Protocol.MissingContextNoAudio | app/src/main/java/com/example/myapplication/ConnectionManager.java:157-160 | without a context, no session ever writes the audio file or invokes the audio callback |
| Protocol.TruncatedAudio | app/src/main/java/com/example/myapplication/ConnectionManager.java:166-178 | when fewer than L bytes arrive, the short file is kept. At end of stream the audio callback is still posted with it; on an IOException nothing is posted |
| Protocol.OversizedTextDesynchronises | app/src/main/java/com/example/myapplication/ConnectionManager.java:86-87 | as written, an oversized message followed by "hi" makes the peer see the text "TEXT" and never "hi" |
| Protocol.DecodeAfterText | app/src/main/java/com/example/myapplication/ConnectionManager.java:129-136 | reading a text frame and then anything gives its message, then the session of what comes after |
| Protocol.TextWiresDecode | app/src/main/java/com/example/myapplication/ConnectionManager.java:80-95 | with the length checked first, any run of text sends, oversized ones included, is read as exactly the messages that fit, in order, and what follows is read as if alone |
| Streams.DataInput.ReadFully | app/src/main/java/com/example/myapplication/ConnectionManager.java:129 | it yields exactly the next n bytes and advances by n, or fails when fewer remain |
| Streams.DataInput.ReadUtf | app/src/main/java/com/example/myapplication/ConnectionManager.java:129-134 | `readUTF` on the stream returns what `ParseUtf` gives on the unread bytes and advances past them |
| Streams.DataInput.ReadLong | app/src/main/java/com/example/myapplication/ConnectionManager.java:157 | `readLong` on the stream returns what `ParseLong` gives on the unread bytes and advances by 8 |
| Streams.DataInput.Read | app/src/main/java/com/example/myapplication/ConnectionManager.java:167 | `read(buffer, 0, n)` returns between 1 and n of the next bytes when any remain, else -1 or an IOException as the stream ends |
| Streams.CopyFile | app/src/main/java/com/example/myapplication/ConnectionManager.java:107-112 | the chunks written are each 1 to 4096 bytes, and together they are the file's contents in order |
| Connections.AudioWire | app/src/main/java/com/example/myapplication/ConnectionManager.java:104-113 | one audio send writes the audio frame of the file; a missing file writes the tag and a zero length, i.e. the empty audio frame |
| Connections.ConnectionManager.AddSocket | app/src/main/java/com/example/myapplication/ConnectionManager.java:68-76 | the socket is registered, with an empty output, exactly when the reader starts; if `getOutputStream` fails, nothing is registered and no reader starts |
| Connections.ConnectionManager.CloseSocketAndRemove | app/src/main/java/com/example/myapplication/ConnectionManager.java:182-207 | the socket is closed and dropped from the registry; removing an absent socket leaves the registry unchanged; a group removal is requested exactly when the manager and channel are set |
| Connections.ConnectionManager.SendMessageToAll | app/src/main/java/com/example/myapplication/ConnectionManager.java:80-95 | every registered socket is attempted. Sockets that do not fail get what the text send writes as written appended; failing ones get a prefix of it. No entry is added or dropped. An oversized message leaves the lone "TEXT" tag on every socket |
| Connections.ConnectionManager.SendAudioFile | app/src/main/java/com/example/myapplication/ConnectionManager.java:98-121 | every registered socket is attempted. Sockets that do not fail get the whole audio frame of the file appended; failing ones get a prefix of it. No entry is added or dropped |
| Connections.ConnectionManager.ReceiveAndSaveAudio | app/src/main/java/com/example/myapplication/ConnectionManager.java:156-179 | the stream advances by exactly what `ReceiveAudio` consumes; the file and the delivered callbacks are what it specifies; the exception thrown is its exit |
| Connections.ConnectionManager.ReadFrame | app/src/main/java/com/example/myapplication/ConnectionManager.java:128-144 | one loop pass advances the stream and updates the callbacks and the file exactly as `Step` specifies, and stops the loop exactly when `Step` does |
| Connections.ConnectionManager.HandleClientSocket | app/src/main/java/com/example/myapplication/ConnectionManager.java:124-152 | the reader invokes exactly the callbacks of `Decode` on the socket's bytes (none when no callback is set), leaves the file and the exit `Decode` gives, and always closes and removes the socket; an already closed socket reads nothing |
| Connections.ReaderGoesOn | app/src/main/java/com/example/myapplication/ConnectionManager.java:127-145 | a loop pass that goes on keeps the callbacks delivered so far plus those of the remaining session equal to those of the whole session |
| Connections.ReaderStops | app/src/main/java/com/example/myapplication/ConnectionManager.java:141-143 | a loop pass that breaks has already delivered every callback of the session, and its exit is the session's exit |

## Left out

- Concurrency is not modelled: the thread pool, `synchronized (dos)`, the
  `ConcurrentHashMap`, and the `Handler` posting to the main thread. Each
  operation runs to completion on its own and each post runs at once. So the
  model does not capture the following:
  - text callbacks run on the reader thread while audio callbacks are
    posted, so their relative order is not modelled;
  - the single file `received_audio.3gp` is shared, and a later receive can
    overwrite it before an earlier callback reads it;
  - a socket can be closed by another thread while its loop runs.
- Modified UTF-8 validity is not modelled. Strings are their encoded bytes,
  and the UTFDataFormatException that `readUTF` throws on malformed input is
  not modelled.
- `startServer` and `startClient` (`accept`, `new Socket`, `SOCKET_PORT`)
  are left out. They are network I/O; a socket enters the model through
  `AddSocket`.
- `setSoTimeout(600000)` is not modelled as a timer. A read timeout is one
  way a stream ends `Broken`.
- A failure of `getInputStream` at the start of `handleClientSocket` is not
  modelled. The reader is given its `DataInput`.
- File system I/O is reduced to values:
  - `FileOutputStream` failures are not modelled;
  - a file that changes between `length()` and the copy is not modelled;
  - a missing file is `Missing`, whose length is 0.
- The singleton `getInstance`, `init` and the setters are not operations
  here. The context, callback and Wi-Fi Direct presence are constructor
  constants.
- The callbacks' effects, the `removeGroup` listener and its Toast are left
  out. Each is a platform call; the model counts the removal requests.
- `isConnected()` is not modelled separately. A socket handed to the reader
  is connected, so the loop condition is whether it has been closed.
- Tags are compared as bytes, not as decoded strings. The source compares
  the decoded header with `String.equals`, and `readUTF` accepts overlong
  forms (the bytes `C1 94` decode to 'T'). So a header spelt with such forms
  dispatches as "TEXT" or "AUDIO_FILE" in the source but is an unknown tag
  in `Protocol.Step`. A conforming sender never writes one, but a
  desynchronised stream can hold one.
- Connections.ConnectionManager.AddSocket: adding a socket that is already
  registered starts a second reader and replaces the stream wrapper. The
  model resets that entry's recorded output.

## Findings

| source | as written | input that shows it | evidently intended | confidence | as-written member | corrected member |
|---|---|---|---|---|---|---|
| app/src/main/java/com/example/myapplication/ConnectionManager.java:86-87 | `writeUTF("TEXT")` goes out before `writeUTF(message)` throws UTFDataFormatException for a message over 65535 encoded bytes. The exception is caught per socket, and the lone tag stays on the stream. | Send a message of 65536 bytes, then "hi". The peer reads the text "TEXT", then the unknown tag "hi", and never delivers "hi". | An unsendable message writes nothing, so later frames stay aligned. | not executed; high | Protocol.OversizedTextDesynchronises | Protocol.TextWiresDecode |

# A verified model of Excom

Excom is a chat protocol library in C: a packet codec over growable byte
buffers, public-key boxes around packet bodies, and a client and a server that
go through a handshake of four stages. This project models those parts in Dafny
and proves what they keep, over every input and every run.

## What is modelled

The modules follow the layers of the program, lowest first.

- `Bytes`: bytes, 16-bit and 32-bit words.
- `Pack`: `pack.c`. The shift loops run on an array; the specification is the
  byte string of a word. The host's byte order is a parameter.
- `Buffers`: `buffer.c` and `buffer.h`. `View` is the value of a buffer
  (capacity, cursor, bytes). The class `Buffer` is the C struct; each method is
  proved equal to a function on views (`Appended`, `Resized`, `Drained`), and
  the lemmas about runs are lemmas about those functions. The answer of
  `write(2)` is a parameter.
- `Format`: the format interpreter of buffers, a loop against a recursive
  reading of the format string.
- `Packets`: the schema of nine packet types, and the field codecs that the C
  macros expand from it. `Unknown` is a type number that the schema does not
  list.
- `Protocol`, `Streams`: a frame on the wire, plain or sealed, and frames one
  after another. The cipher is a pair of functions with two laws (`Lawful`:
  lengths are kept, a box opens to its contents) and symbolic nonce and padding
  sizes. Nonces are parameters. `Fault` is the outcome of a read outside the
  bytes of the frame.
- `ProtocolIO`: `read_packet`, `write_packet` and the two boxing routines in
  place, proved against `Protocol`.
- `Framing`, `CheckPacket`: cutting received bytes into packets. The constant of
  the completeness test is the parameter `guard`; the code has 4, while a header
  has 8 bytes. `Overrun` is a look that reads past the bytes that have arrived.
- `PacketQueue`, `Worker`, `ListRace`: the linked list between parser and worker
  as a class; parser and worker as two threads with mutex and condition variable;
  and the worker's removal statement by statement against concurrent appends.
- `Endpoints`, `Sessions`: the packet handlers of both ends as functions from a
  session and a packet to a session and its replies, and the two session classes
  whose methods are the handlers, assign the fields and write the replies to the
  output buffer. `Did` ties the one to the other. The stage that the source
  calls BODY is `Chat` here.
- `ServerRuns`, `ClientRuns`: each end alone, on any packets in any order.
- `Handshake`: both ends and two unbounded channels of frames. The steps are:
  the client takes and handles a frame; the server decodes a frame in its mode
  of that moment; the server's worker handles a decoded packet later; the
  application sends a ping at any time; the application sends a command in the
  last stage. A frame decoded in the wrong mode reaches its handler as a packet
  of the same type with arbitrary fields.
- `Channels`: the handshake's runs as a whole: what was sent, and what the
  handlers were given.
- `Stack`, `StackRuns`: the same two ends over bytes. Frames are encoded into two
  byte streams, which arrive in arbitrary pieces and are cut by `check_packet`.
  This machine refines `Handshake`, and gets the handshake done.

`Endpoints.RepliesMatchRequests`, `Endpoints.StagesAdvance`,
`ServerRuns.OneReply` and `ClientRuns.OneAnswer` say what one call of a handler
does; they are steps of the results on runs below. `Protocol.TestFrames`,
`Protocol.TestVersionFrame` and `Protocol.TestCommandFrame` are test vectors: the
frames that test/protocol.test:46-69 expects, byte for byte, save for the type
byte of `command`. `Protocol.OtherFrames` spells out the types they leave out, for
any contents. `Protocol.LawfulExists` and `Endpoints.SodiumIsSane` say that what
the theorems ask of cipher and sizes can be met, and is by libsodium's sizes.

## Where the code limits what holds

These are facts about the code, each with its exact condition.

- Words round trip on little-endian hosts, and on others only when their byte
  string reads the same in both directions (`RoundTrip32`, `RoundTrip16`).
- `resize` grows a buffer even if the bytes fit, against `inc/excom/buffer.h:97-102`
  (`GrowsEvenIfItFits`).
- The cursor is inside the allocation, as `inc/excom/buffer.h:45-48` says it always
  is, exactly unless the buffer is full and read to its end (`CursorInside`);
  `CursorLeaves` gets there.
- `resize` keeps the cursor in 32 bits: a buffer stays a FIFO exactly as long as
  no resize meets a larger cursor (`FifoRun`), which needs 2^32 bytes
  (`SmallRunsFit`).
- With the guard 4, framing is right exactly when no arrival leaves a partial
  frame in a window of sizes (`ChunkIndependence`), and every frame has such an
  arrival (`ShortGuardOverruns`). With the guard 8 there is no window (`NoWindow`).
- On arbitrary bytes a look reads outside a frame under the condition in
  `OverrunsExactly`; even the guard 8 lets it go ahead for eight sizes whose sum
  with it wraps around (`HeaderGuardWraps`).
- The length field tells a frame's length exactly when it fits 32 bits
  (`HonestLength`).
- After a sealed body the read cursor stands `zeroBytes` short of the frame's
  end (`CursorOnFrameEnd`). In the handshake this first happens to the first
  command (`BytesComplete`, `FirstCommandOutOfStep`), and from there the byte
  stream is out of step (`InStep`).
- The worker removes the head of the list without the lock. The list survives
  an interleaving under the condition in `RemoveSurvives`.
- The handlers of both ends copy the stored key into the packet, so a session
  never learns the key of its peer (`RemoteKeyStays`, `RemoteKeyIsPeers`).
- `test/protocol.test:66` expects the type byte 5 for `command`; the schema says
  0x10 (`TestCommandFrame`).

## Model

| member | source | states |
|---|---|---|
| Pack.NetworkOrder32 | src/excom/protocol/pack.c:14-56 | On a little-endian host a word goes out as its four base-256 digits, most significant first, and any four bytes are read that way. |
| Pack.NetworkOrder16 | src/excom/protocol/pack.c:58-98 | The same for 16 bits. |
| Pack.RoundTrip32 | src/excom/protocol/pack.c:14-56 | Unpacking inverts packing if and only if the host is little-endian or the word's bytes are a palindrome. |
| Pack.RoundTrip16 | src/excom/protocol/pack.c:58-98 | The same for 16 bits. |
| Pack.PackUint32 | src/excom/protocol/pack.c:14-35 | The shift loop writes the four packed bytes, clears a fifth cell, and changes nothing else. |
| Pack.UnpackUint32 | src/excom/protocol/pack.c:37-56 | Reads the word that the four bytes denote. |
| Pack.PackUint16 | src/excom/protocol/pack.c:58-79 | Two packed bytes, a third cell cleared, the rest untouched. |
| Pack.UnpackUint16 | src/excom/protocol/pack.c:81-98 | Reads the 16-bit word that the two bytes denote. |
| Buffers.LeastDoubling | src/excom/buffer.c:57-71 | The doubling loop yields the least size * 2^k with k >= 1 that fits, and less than twice a request above the present size. |
| Buffers.GrownLeast | src/excom/buffer.c:57-84 | A resize yields the least max * 2^k with k >= 1 that fits, and from capacity zero the least such 2^k. |
| Buffers.GrownFits | src/excom/buffer.c:57-84 | A resize fits the request, at least doubles the buffer, and ends at most at twice a request above the capacity, from zero capacity too. |
| Buffers.GrowsEvenIfItFits | src/excom/buffer.c:57-87 | Resizing to a size that fits already still doubles the buffer: the promise of the header file does not hold. |
| Buffers.AppendRoom | src/excom/buffer.c:89-118 | An append changes the capacity if and only if the bytes do not fit, stores them behind what is stored, and leaves the rest alone. |
| Buffers.AppendKeepsOrder | src/excom/buffer.c:89-118 | Appending adds the bytes behind the unread ones if and only if no resize meets a cursor past 32 bits. |
| Buffers.WriteKeepsOrder | src/excom/buffer.c:351-389 | The bytes a write hands over and the bytes it leaves are the unread bytes, whatever count the socket answers. |
| Buffers.FifoStep | src/excom/buffer.c:57-118 | One append or write, with resize, short write, failure or drain, keeps the byte stream in order if and only if the cursor survives. |
| Buffers.FifoRun | src/excom/buffer.c:340-389 | Over any run, at every point, bytes sent followed by bytes left are the bytes put in, if and only if no resize of the run meets a cursor past 32 bits. |
| Buffers.SmallRunsFit | src/excom/buffer.c:57-118 | Runs that put in less than 2^32 bytes meet that condition. |
| Buffers.CursorInside | inc/excom/buffer.h:45-49 | The cursor is inside the allocation if and only if the buffer is not both full and read to its end. |
| Buffers.CursorLeaves | src/excom/buffer.c:351-389 | Filling a buffer that is not freed and sending all of it puts the cursor one past the allocation, for any contents. |
| Buffers.CopiesCounted | src/excom/buffer.c:57-118 | Exactly the appends that change the capacity copy anything, and they copy all that is stored. |
| Buffers.CopiesWithinGrowth | src/excom/buffer.c:57-118 | Over a run of appends, resizes copy no more bytes than the capacity grew by. |
| Buffers.CopiesAreLinear | src/excom/buffer.c:57-118 | Over any run of appends, writes and drains, resizes copy at most two bytes per byte appended. |
| Buffers.Buffer.Remaining | inc/excom/buffer.h:241-243 | The count is the length of the unread bytes. |
| Buffers.Buffer.constructor | src/excom/buffer.c:7-27 | An empty buffer of the given capacity, mutable and freeable. |
| Buffers.Buffer.Reset | src/excom/buffer.c:29-55 | Back to the value of the constructor. |
| Buffers.Buffer.Destroy | src/excom/buffer.c:340-349 | Capacity zero and no bytes, flags kept; the buffer can be appended to again. |
| Buffers.Buffer.NewSize | src/excom/buffer.c:59-70 | The loop computes the capacity that `LeastDoubling` characterises. |
| Buffers.Buffer.Resize | src/excom/buffer.c:57-87 | New storage of that capacity with the same bytes and the cursor at its 32-bit distance. |
| Buffers.Buffer.CAppend | src/excom/buffer.c:89-118 | The first `size` bytes appended, or EACCES and no change when the buffer is not mutable. |
| Buffers.Buffer.SAppend | src/excom/buffer.c:120-150 | A string appended whole, or EACCES and no change. |
| Buffers.Buffer.BAppend | src/excom/buffer.c:152-155 | All stored bytes of another buffer appended, read or not. |
| Buffers.Buffer.BAppend2 | src/excom/buffer.c:198-229 | The first bytes of another buffer, or of this one, appended. |
| Buffers.Buffer.BAppendRemaining2 | src/excom/buffer.c:163-196 | The next unread bytes of another buffer appended, and its cursor not moved. |
| Buffers.Buffer.Write | src/excom/buffer.c:351-389 | The accepted bytes are the first unread ones. A drained freeable buffer is left with no capacity, no bytes and the cursor at zero; any other accepted count moves the cursor by it and nothing else; failure, or nothing to write, changes nothing. |
| Format.InterpretConcat | src/excom/buffer.c:231-290 | Formatting a concatenation is formatting the parts in turn, the second with the arguments that the first left over. |
| Format.DirectiveTexts | src/excom/buffer.c:254-274 | In front of any format, %s and %S append their string, %b the first bytes of its block, %% one percent sign, and any other character nothing. |
| Format.LiteralTexts | src/excom/buffer.c:246-252 | Any character but the percent sign stands for itself, and the empty format for nothing. |
| Format.BufferFormat | src/excom/buffer.c:231-290 | For every format with matching arguments the scanning loop ends and appends exactly the text that the format denotes; EACCES and nothing on an immutable buffer. |
| Format.AppendDirective | src/excom/buffer.c:254-274 | Each directive appends its argument and moves past the arguments it fetched; an unknown one appends nothing. |
| Packets.FieldsRoundTrip | inc/excom/protocol/packets.def:7-80 | The union's members and the schema's fields determine each other for every type number, listed or not. |
| Packets.ReadFieldsBytes | src/excom/protocol.c:47-64 | For any schema the bytes that the field writers produce are the bytes that the field readers consume, and the values come back. |
| Packets.BodyLength | src/excom/protocol.c:104-120 | The size the writer adds up is the number of body bytes, per type. |
| Packets.ReadBody | src/excom/protocol.c:40-72 | A written body, followed by anything, reads back as its fields and ends where the body ends. |
| Packets.ReadFieldsBack | src/excom/protocol.c:47-64 | On any bytes, and for any schema, the fields that are read encode to exactly the bytes that were consumed. |
| Protocol.SealedBody | src/excom/encryption.c:44-160 | A sealed body is nonce, padding and text long, and opens to the text. |
| Protocol.HonestLength | src/excom/protocol.c:135-157 | The measured and the sent copy of a body have the same length although they are sealed with different nonces, in both modes, and the header tells the frame's length if and only if the body is shorter than 2^32. |
| Protocol.FrameRoundTrip | src/excom/protocol.c:8-163 | Any frame, read in the mode it was written in, gives its id, type, size and fields, and the cursor ends short of the frame by the padding of a sealed body. |
| Protocol.CursorOnFrameEnd | src/excom/encryption.c:126 | With a padded cipher the cursor ends on the frame's end if and only if the frame is plain or has no body. |
| Protocol.ModeOfEmptyBody | src/excom/encryption.c:52-55 | A packet without body has the same bytes in both modes and reads the same in both. |
| Protocol.NextFits | src/excom/protocol.c:17-78 | On any bytes, hostile ones included, a read that succeeds leaves the cursor inside the frame. |
| Protocol.ReadsWhatStands | src/excom/protocol.c:8-82 | On any bytes, a packet that is read has the header that stands there and the fields that the plain bytes begin with, and the cursor moves past these and no further. |
| Protocol.TypeZeroRefused | src/excom/protocol.c:66-70 | A complete frame of type 0 is never a packet; the cursor is left behind its header and nonce. |
| Streams.StreamRoundTrip | src/excom/protocol.c:8-163 | Any list of plain or empty packets written into one buffer is read back in order, and what follows them stays unread. |
| Streams.PrefixFree | src/excom/protocol.c:84-163 | Two plain frames at the start of the same bytes are the same frame. |
| Streams.UniquelyDecodable | src/excom/protocol.c:84-163 | Lists of packets with equal concatenated encodings are equal packet by packet. |
| ProtocolIO.PEncrypt | src/excom/encryption.c:44-96 | Appends the nonce and the box of zeros and the next `use` unread bytes, nothing for none, and EACCES with no change for an immutable output. |
| ProtocolIO.PDecrypt | src/excom/encryption.c:108-160 | Appends the opened text behind its padding; a box that does not open leaves the output as it was; the cursor moves past the nonce only; EACCES moves and appends nothing. |
| ProtocolIO.WriteBody | src/excom/protocol.c:98-129 | The macro-expanded switch appends the schema's fields in order and counts their bytes. |
| ProtocolIO.WritePacket | src/excom/protocol.c:84-163 | A mutable output grows by exactly the frame of `Protocol.Wire`, whichever two nonces are drawn and however long it is, and an immutable one keeps its value; `size` is what the header says; INVALID is refused and writes nothing. |
| ProtocolIO.ReadBodyFields | src/excom/protocol.c:66-72 | The switch on the type number, and None exactly when a field reaches past the body. |
| ProtocolIO.ReadPacket | src/excom/protocol.c:8-82 | On any bytes the result is that of `Protocol.ReadFrame` and the cursor moves where it says. |
| Framing.DrainStream | src/excom-server/client.c:186-221 | On the first n bytes of any stream of frames the loop takes the complete frames in order and leaves the partial one. |
| Framing.ChunkIndependence | src/excom-server/client.c:175-227 | For any chunks of any such stream, after every arrival the packets parsed are the complete frames and the rest is the partial frame; the loop never overruns if and only if no arrival leaves a frame in the window. |
| Framing.TypeZeroStops | src/excom-server/client.c:203-208 | A complete frame of type 0 behind any stream of frames ends the loop: the frames before it are taken, and it and all that follows stays unread but for its header and nonce. |
| Framing.NoWindow | src/excom/protocol.c:17-24 | With a guard of the header's length there is no window, so the above is unconditional. |
| Framing.ShortGuardOverruns | src/excom-server/client.c:193 | With any shorter guard, such as the coded 4, every frame has an arrival that makes the loop read bytes that have not come. |
| Framing.HeaderGuardWraps | src/excom-server/client.c:193 | On any bytes, a guard of the header's length lets a look go ahead with part of a frame if and only if the 32-bit sum wraps. |
| Framing.ClientLooksAlike | src/excom-client/client.c:84-100 | The client's test decides as the server's does on all buffers but those of exactly four bytes that the guard calls complete. |
| CheckPacket.OverrunsExactly | src/excom-server/client.c:186-200 | On any bytes, whoever sent them, a look reads outside the frame if and only if the guard lets it go ahead while the header, the body, the nonce or a field is not all there. |
| CheckPacket.BodyFitsExactly | src/excom/protocol.c:47-72 | The fields of a body can be read if and only if the lengths written in it end inside it, per type. |
| CheckPacket.LookOnce | src/excom-server/client.c:186-220 | One turn of the loop: the packet found goes to the queue, the cursor past it. |
| CheckPacket.ServerCheckPacket | src/excom-server/client.c:175-227 | The loop in place appends to the queue exactly what `Framing.Drain` takes from the unread bytes, leaves exactly its rest, and stops for its reason. |
| PacketQueue.Queue.Append | src/excom-server/client.c:210-220 | The linked list holds the old packets and then the new one, `last` included. |
| PacketQueue.Queue.Dequeue | src/excom-server/client.c:254-259 | The first packet is taken and the rest stays, with `last` cleared when it was the only one. |
| Worker.ExactlyOnce | src/excom-server/client.c:184-285 | In every interleaving, and told from its acts alone, the list holds the packets parsed but for as many of the first as were removed; these are handled in order, or the last of them is in hand; and the packet the worker has loaded but not removed is still the first. |
| Worker.SignalToCome | src/excom-server/client.c:224-241 | A worker asleep on a list that is not empty has a signal still to come; asleep with the parser outside, it has handled every packet of the run. |
| Worker.WorkerDrains | src/excom-server/client.c:229-287 | While packets wait and the parser is outside the worker can step, and every step of it brings the end of the list nearer. |
| Worker.BatchHandled | src/excom-server/client.c:184-287 | From any reachable state with the parser outside, whatever packets come next, there is a way on to where all of them are parsed and handled. |
| ListRace.RemoveSurvives | src/excom-server/client.c:254-259 | With any numbers of appends between the statements of the removal, the list ends as it should if and only if there was another node, or no append fell in the two gaps that matter. |
| Endpoints.RepliesWritable | src/excom-server/handle_packets.ci:12-30 | Every reply of either end can be encoded. |
| ServerRuns.StageReached | src/excom-server/handle_packets.ci:47-88 | After any packets the server is past a stage if and only if a version from 0.0.0 to 0.3.11, then a key of the right size, then a ping have come, each up to the stage; encryption is on exactly from ENCRYPT on. |
| ServerRuns.RemoteKeyStays | src/excom-server/handle_packets.ci:57-58 | After any packets the stored remote key is still all zeros. |
| ServerRuns.RemoteKeyIsPeers | src/excom-server/handle_packets.ci:57-58 | It equals a key that the client sent if and only if that key is all zeros. |
| ServerRuns.OutputShape | src/excom-server/handle_packets.ci:12-88 | On any input the frames sent are a plain stretch that ends with the key, then sealed ones; `ok` and the key go out at most once, and have exactly when the stage says so. |
| ServerRuns.RepliesInOrder | src/excom-server/handle_packets.ci:12-104 | On any input the frames sent are replies in the order of their requests, at most one each, with its id and in the mode of that moment; exactly which packets get `ok`, the key, a pong, or which refusal, follows from the stage, the version numbers and the key size; a refusal changes nothing. |
| ClientRuns.StageReached | src/excom-client/handle_packets.ci:34-86 | After any packets the client is past a stage if and only if an `ok`, then a key of the right size, then a pong have come; encryption is on exactly from ENCRYPT on. |
| ClientRuns.RemoteKeyStays | src/excom-client/handle_packets.ci:64-65 | After any packets the client's stored remote key is still all zeros. |
| ClientRuns.RemoteKeyIsPeers | src/excom-client/handle_packets.ci:64-65 | It equals a key that the server sent if and only if that key is all zeros. |
| ClientRuns.OutputIsScript | src/excom-client/handle_packets.ci:34-86 | On any input, and refusals aside, the client has sent version 0.0.1, its key, a ping and "hello world" up to its stage, each once and in this order. |
| ClientRuns.AnswersInOrder | src/excom-client/handle_packets.ci:14-86 | On any input the frames after the first are answers in the order of the packets they answer, at most one each and with its id: the message of the next stage, or a refusal with its reason that changes nothing. |
| Sessions.ServerSession.constructor | src/excom-server/client.c:28-53 | A fresh session with an empty output buffer. |
| Sessions.ServerSession.HandleProtocolVersion | src/excom-server/handle_packets.ci:68-79 | In PREHANDSHAKE, versions 0.0.0 to 0.3.11 get `ok` and lead to PREENCRYPT, and all others get `reject` and lead nowhere; fields and output bytes change as the handler's function says. |
| Sessions.ServerSession.HandlePublicKey | src/excom-server/handle_packets.ci:47-66 | The same; the reply is encoded before encryption is switched on. |
| Sessions.ServerSession.HandlePing | src/excom-server/handle_packets.ci:81-88 | The same; the reply is encoded in the mode of the session. |
| Sessions.ServerSession.HandleCommand | src/excom-server/handle_packets.ci:95-104 | The same for `command` and `command_response`. |
| Sessions.ServerSession.Handle | src/excom-server/client.c:261-279 | The switch: any packet changes the session and grows the output by the encoded replies of `Endpoints.ServerHandle`, and nothing else. |
| Sessions.TakeOne | src/excom-server/client.c:252-285 | One turn: the first packet is handled, the rest and what the parser appended meanwhile stay. |
| Sessions.WorkerPass | src/excom-server/client.c:252-285 | The inner loop, with the parser appending any packets at each turn, ends with the list empty, and the output grows by the encoded replies to all packets that came to the list, in order and once each. |
| Sessions.ClientSession.constructor | src/excom/client.c:50-64 | A fresh session with empty buffers that are not freed when they run empty. |
| Sessions.ClientSession.Connect | src/excom/client.c:96-114 | The bytes that the socket took and those that the output buffer keeps are the first message, spelled out byte for byte, whatever the socket answers. |
| Sessions.ClientSession.HandleOk | src/excom-client/handle_packets.ci:34-45 | Fields and output bytes change as the handler's function says. |
| Sessions.ClientSession.HandlePublicKey | src/excom-client/handle_packets.ci:55-70 | The same; the ping that follows is encoded with encryption on. |
| Sessions.ClientSession.HandlePong | src/excom-client/handle_packets.ci:76-86 | In ENCRYPT the pong leads to BODY and makes the client send the command "hello world"; otherwise nothing happens. |
| Sessions.ClientSession.Handle | src/excom-client/client.c:41-65 | The default handler's switch, as for the server. |
| Sessions.ClientSession.CheckPacket | src/excom-client/client.c:76-118 | At most one packet is taken per read event, pushed on the list and handled at once; a wait changes nothing, and a packet of type INVALID moves the cursor only. |
| Handshake.StepKeeps | src/excom-server/handle_packets.ci:47-88 | Every step of the joint machine keeps the invariant that says, for each pair of stages, which message is outstanding. |
| Handshake.ReachedInv | src/excom/client.c:104-112 | The invariant holds in every reachable state. |
| Handshake.ModeAgreement | src/excom-server/client.c:185-221 | In every reachable state each frame with a body in either channel would be decoded in the mode it was written in, and each decoded packet in the queue was, although the server decodes ahead of handling. |
| Handshake.ClientNeverAhead | src/excom-client/handle_packets.ci:34-86 | In every reachable state the client's stage is at most the server's, no `error` or `reject` is anywhere, and a command on its way finds the server in BODY. |
| Handshake.NeverStuck | src/excom-server/client.c:270-279 | In any state at all, with any packets decoded in any mode, some delivery is possible as long as anything is on its way. |
| Handshake.AnyReading | src/excom/protocol.c:31-72 | A frame with a body decoded in the other mode reaches its handler as any packet of its type, and every other frame exactly as it was sent. |
| Handshake.DeadlockFree | src/excom-server/handle_packets.ci:47-88 | A reachable state with nothing on its way has both ends in BODY; in any other some delivery is possible. |
| Handshake.DeliveryLowersWeight | src/excom-server/handle_packets.ci:32-104 | From any pair of states with any packets in the channels, each delivery lowers the weight of what is on its way, whatever fields a frame decoded in the wrong mode turns out to have. |
| Handshake.DeliveryRunsEnd | src/excom-client/handle_packets.ci:34-98 | So a run without sends by the application is at most as long as the initial weight. |
| Handshake.HandshakeCompletes | src/excom-client/handle_packets.ci:34-86 | From any reachable state deliveries in any order end, and when none is left both ends are in BODY with nothing on its way. |
| Channels.NothingLost | src/excom-server/client.c:185-285 | In every run the frames an end has sent are those the other end's handlers were given followed by those on their way, and each session is what its handlers, run alone on what they were given, would have made it. |
| Channels.EndToEnd | src/excom-server/client.c:185-285 | In every run each end's handlers are given the very packets that the other end sent, in order and once each, and each frame was decoded in its own mode, by the modes recorded at decoding. |
| Stack.ServerFinds | src/excom-server/client.c:186-200 | A look at the received bytes takes a packet if and only if the first frame of the channel is all there, and takes it as its sender made it. |
| Stack.ClientFinds | src/excom-client/client.c:84-104 | The same for the client, whose cursor always ends on the frame's end. |
| Stack.ServerLooksMatched | src/excom/encryption.c:126 | A server's look takes the first frame of the channel and leaves the bytes of the others, preceded by the last `zeroBytes` bytes of the frame if it was sealed with a body. |
| Stack.InStep | src/excom/encryption.c:126 | So bytes and frames stay in step if and only if the frame was plain, or empty, or the cipher has no padding. |
| Stack.EventMatched | src/excom-server/client.c:175-285 | An event of the byte machine that changes more than what has arrived is exactly one step of the frame machine; the others are none. |
| StackRuns.BytesFollowFrames | src/excom-server/client.c:175-285 | However bytes arrive and threads interleave, the byte streams and the queue are the encoding of a reachable state of `Handshake`, until a command is parsed, and for ever without padding. |
| StackRuns.LooksAreSafe | src/excom-server/client.c:193 | With the header's length as guard no look at the bytes of a reachable state overruns, at either end. |
| StackRuns.BytesSafe | src/excom-client/handle_packets.ci:34-86 | As long as the frames are followed the client is not ahead, no refusal is queued, and dry streams with an empty queue, which only a cipher without padding comes to, mean that both ends are in BODY. |
| StackRuns.StagesAlongBytes | src/excom-server/handle_packets.ci:47-99 | In every byte run, past the first command too and with any cipher, the client is never ahead, and a command is parsed only once both ends are in BODY. |
| StackRuns.AlwaysPossible | src/excom-client/client.c:143-190 | Any part of the bytes on their way can arrive, and the application can always ping, and in BODY send a command. |
| StackRuns.BytesMove | src/excom-server/client.c:175-285 | While a byte or a packet is left some arrival, look or handling changes something. |
| StackRuns.BytesComplete | src/excom-client/client.c:76-118 | After any byte run in which no command was parsed, deliveries cannot stop before the server has parsed one, cannot go on without it for more events than a budget computed from the state, and when it has, both ends are in BODY. |
| StackRuns.ToFirstCommand | src/excom-client/handle_packets.ci:76-86 | From any such state some deliveries lead to where the first command has arrived whole and is next to be parsed. |
| StackRuns.FirstCommandOutOfStep | src/excom/encryption.c:126 | From any such run, there is a continuation whose next look takes the first command and leaves bytes and frames in step if and only if the cipher has no padding. |

## Left out

- Sockets, event loops, and the epoll, kqueue, poll and select back ends.
- The poll and select registries, the factory's job list and the server's list
  of clients: their code does not keep the lists it means to keep, so there is
  no invariant to prove, and no other module here needs them.
- Closing and disconnecting: runs of queue and handshake are runs before close.
- Inside the cipher: key pairs, the precomputed key and random numbers. That
  both ends box under one key is an assumption (`Lawful`).
- Allocation failure, mutex return codes, the mutex of each buffer, variable
  arguments of `prefill`, the command line program, the scripts, the build, debug
  printing.
- The width of `size_t`: sizes are unbounded, and `GrownFits` bounds capacities
  by twice the request.
- WritePacket: the scratch array has five cells where the C array has four,
  because packing clears a fifth.
- StreamRoundTrip: frames of 2^32 bytes or more, header included, are excluded
  here and in `Framing`, `Handshake` and `Stack`. The length field could still
  tell the eight shortest of them, but the 32-bit sum of the framing test wraps
  around for these (`HeaderGuardWraps`); it cannot tell the others
  (`HonestLength`). Sealed packets with a body are excluded too, since the cursor
  stops short of their end (`CursorOnFrameEnd`).
- ReadPacket: what a read outside the frame would find is not modelled; the
  result is `Fault`.
- WorkerPass: appends fall between whole turns. Appends inside the removal are in
  `ListRace`, and those around the locks in `Worker`.
- ExactlyOnce: the removal of the head is one step, as is the append;
  `RemoveSurvives` says what interleavings inside the removal do to the list.
  Appends inside the removal are whole appends.
- ServerCheckPacket: the mode does not change during one call. `Handshake` and
  `Stack` let handling fall between the packets of one call.
- DeliveryLowersWeight: a frame decoded in the wrong mode also leaves the cursor
  somewhere inside itself. The channels of `Handshake` hold frames, so bytes that
  are cut in the wrong place from there on are not followed.
- HandshakeCompletes: the client can take a frame whenever one is there. Its
  code takes one packet per read event, so a frame can wait for the next event.
- BytesFollowFrames: with a padded cipher it ends with the first command that the
  server parses. `InStep` says why, and `ServerLooksMatched` what the streams
  hold then. `StagesAlongBytes` holds beyond.
- BufferFormat: formats that end in a lone percent sign, or whose arguments do
  not match, are excluded; what the C code does with them is undefined.
- PackUint32: the array must hold the extra cell that the code clears.

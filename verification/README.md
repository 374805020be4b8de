# Verification of webgpudd's command stream, matrix example and Collatz kernel

This project models, and proves properties of, three parts of the Docker Desktop WebGPU runtime.

**The framed command stream.** `SendBuffer` packs commands behind 12-byte headers (type, length), closes a
batch with a type-2 marker and hands the bytes to `CommandTransport::Send`, which cuts them into 64 KiB writes.
`CommandTransport::Recv` is an incremental parser that keeps partial headers and bodies across `recv` calls,
places bodies in `RecvBuffer` and calls the command handler at each marker. `DDWGPUServer` answers each batch and
flushes.

* `Bytes`, `Framing`: little-endian words, headers, frames, batches, and their decoders.
* `Receiver`: what `Recv` means, one byte at a time: `State` holds the handler calls so far, the bytes placed since
  the last flush, and the parser's position. `Streams` compares it with a recursive decoder of the whole stream.
* `RecvBuffers`, `Transport`: `CommandHandler`, `RecvBuffer`, `CommandTransport` and the locals of `Recv` as classes
  over arrays and offsets. `RecvLoop.Feed` is the body of the receive loop, with its bulk copies; it is proved to
  refine the byte-at-a-time meaning.
* `Wire`: the kernel's `send` and `recv` as arbitrary outcomes, and what the chunked send does under them.
* `SendBuffers`, `Batching`: the sending buffer in place, the batches its calls make, and their optimality.
* `EndToEnd`, `Delivery`, `Session`: sender against receiver, over whole streams, under every kernel, and on the classes.
* `Server`, `Protocol`: the server's handler, and client and server as a state machine over both wires.

**The tiled matrix product.** `Matrix`: 32-bit words, indices and sums, with every wrap written out. `TiledCpu`: the
threads of `multiplyMatrices` interleaved at single loads and stores. `CpuLoops`: the loops over the array. `Gpu`:
the WGSL kernel and its dispatch.

**The Collatz kernel.** `Collatz`: `collatz_iterations` on 32-bit words against the integer trajectory.

Conventions. Buffer capacities (2,000,000 in the source) are parameters; the chunk size is 65536. A command handler is
a function from call numbers to results, which covers every handler on any one run. `send` is a function from call
numbers to return values, `recv` a list of outcomes. Both ends use little-endian words, as the source needs equal
byte orders. `size_t` sums are assumed not to wrap: a caller's `size + 24` stays below 2^64. When `GetCmdSpace`
returns null for a received command, the source goes on to copy through the null pointer; the model stops there, in
phase `Stuck`. `Streams.StuckExactly` says when that happens, for every stream and handler: when a length exceeds the
buffer, or the handler returns null at a flush that was to make room; `RefusedFlushSticks` is an instance. A `send` that takes fewer bytes than asked is neither
retried nor reported, and a transport that is not connected reports success, so success of `Send` and `Flush` does
not mean delivery: `SendIsExactWhenFull` and `FlushIsTrueExactly` give the exact condition, `ClosedFlushLoses` an
instance. Results that need delivery assume that condition of the flushes actually made (`Delivery.AllDelivered`);
`Delivery.FirstFailure` says what the wire and the receiver have after the first flush that fails. `RecvBuffer` advances its
offset before the bytes arrive: `RecvLoop.Valid` and `RecvLoop.View` say which bytes are there.

## Model

| member | source | states |
|---|---|---|
| Framing.HeaderLayout | src/common/dawn_command_buffer.h:8-11 | the type is read from bytes 0 to 3 and the length from bytes 4 to 11 of the packed header, lowest byte first |
| Framing.HeaderBytes | src/common/dawn_command_buffer.cpp:27-29 | a header written for a type and a length has them in those bytes, and is twelve bytes long |
| Framing.FirstFrameLayout | src/common/dawn_command_transport.cpp:78-90 | a frame starting 2, 0, 0, 0 is a marker; any other is a command whose body is as long as bytes 4 to 11 say and starts at byte 12 |
| Framing.ParseEncode | src/common/dawn_command_buffer.h:8-11 | parsing undoes the encoding of any frame list, whatever incomplete frame follows |
| Framing.EncodeParse | src/common/dawn_command_transport.cpp:67-84 | every byte string is one frame list and one incomplete tail, with no byte lost |
| Framing.ParsePrefix | src/common/dawn_command_transport.cpp:67-84 | bytes that come later never change the frames already recognised |
| Framing.DecodeEncode | src/common/dawn_command_buffer.cpp:27-43 | decoding the stream of any list of batches gives that list and leaves nothing over |
| Framing.DecodePrefix | src/common/dawn_command_buffer.cpp:27-43 | decoding any prefix of the stream gives a prefix of the batches |
| Framing.EncodingInjective | src/common/dawn_command_buffer.cpp:27-43 | two batch lists with the same stream are equal, command by command |
| Receiver.TwelveBytesMean | src/common/dawn_command_transport.cpp:78-92 | twelve header bytes, written out: a flush of the buffered bytes at type 2, else the reservation, implicit flush or refusal for the length in bytes 4 to 11 |
| Receiver.Conservation | src/common/dawn_command_buffer.cpp:60-81 | on every stream the bytes handled plus the bytes buffered are the body bytes received, in order, none lost or repeated |
| Receiver.FramesMean | src/common/dawn_command_buffer.cpp:60-81 | as long as there is space, handler calls on any frame list are whole commands between markers, an implicit flush acting as a marker before the command that would overflow; failures at markers are ignored |
| Receiver.ServedExactly | src/common/dawn_command_buffer.cpp:61-71 | there is space for every command if and only if all bodies fit and the handler accepts each implicit flush |
| Streams.StreamMeans | src/common/dawn_command_transport.cpp:53-109 | on any stream with space for its commands, calls, buffer contents and parser state are those of a recursive decoder of the whole stream |
| Streams.StuckExactly | src/common/dawn_command_buffer.cpp:60-71 | for every handler and stream, the destination is null if and only if an announced length exceeds the capacity or the handler refuses an implicit flush |
| Streams.RefusedFlushSticks | src/common/dawn_command_buffer.cpp:66-69 | two commands of full capacity, a handler refusing the first call: every length fits and the destination is null |
| Streams.FeedAll | src/common/dawn_command_transport.cpp:53-109 | the parser fed any non-empty chunks ends in the state the decoder gives for their concatenation, and stops exactly on streams without space |
| RecvBuffers.RecvBuffer.Flush | src/common/dawn_command_buffer.cpp:77-81 | the handler gets exactly the bytes below the offset, the offset returns to 0, the result is the handler's |
| RecvBuffers.RecvBuffer.GetCmdSpace | src/common/dawn_command_buffer.cpp:60-75 | the three outcomes: refused, reserved in place, or flushed once and then reserved or refused as the handler answers |
| Transport.RecvLoop.ReadHeader | src/common/dawn_command_transport.cpp:69-77 | header bytes from several chunks are put together in order; complete exactly when twelve are there |
| Transport.RecvLoop.StartCommand | src/common/dawn_command_transport.cpp:82-92 | after a data header: space reserved, the body bytes already here placed, the rest awaited |
| Transport.RecvLoop.ContinueCommand | src/common/dawn_command_transport.cpp:93-102 | a continued body starts at the front of the new chunk and goes behind the part already placed |
| Transport.RecvLoop.Feed | src/common/dawn_command_transport.cpp:65-109 | one chunk, whatever its size, takes the parser, buffer and handler where the same bytes one at a time would |
| Transport.CommandTransport.Recv | src/common/dawn_command_transport.cpp:46-111 | over any recv outcomes, the handler calls, the buffered bytes and the return code |
| Wire.EventsMean | src/common/dawn_command_transport.cpp:53-63 | what counts as received: every chunk before the first close or failure, in order; the code 0 or -errno |
| Transport.CommandTransport.Send | src/common/dawn_command_transport.cpp:23-44 | the code, the bytes the wire gained and the number of send calls, for every kernel behaviour, connected or not |
| Wire.ChunksAre | src/common/dawn_command_transport.cpp:28-36 | the chunks of a send are 65536 bytes each, the last one what is left |
| Wire.SendIsExactWhenFull | src/common/dawn_command_transport.cpp:28-43 | success with exactly the buffer on the wire if and only if every send call takes its whole chunk; then in ceil(size / 65536) calls |
| Wire.SendStopsAtFailure | src/common/dawn_command_transport.cpp:37-40 | a failing call after m full ones leaves exactly the first m * 65536 bytes on the wire |
| SendBuffers.SendBuffer.GetCmdSpace | src/common/dawn_command_buffer.cpp:15-34 | space exactly when the size plus 24 fits and any flush succeeded; at most one flush, when offset, size and 24 exceed the capacity; the twelve bytes in front of the space are type 1 and the size |
| SendBuffers.SendBuffer.Flush | src/common/dawn_command_buffer.cpp:36-47 | exactly the open commands and the bytes 2 and eleven zeros go to the transport, nothing when empty; the buffer is empty afterwards even on failure |
| SendBuffers.FlushIsTrueExactly | src/common/dawn_command_buffer.cpp:36-47 | a flush reports success and has delivered the batch if and only if the transport is connected and every send is full |
| SendBuffers.ClosedFlushLoses | src/common/dawn_command_transport.cpp:24-26 | over any unconnected transport every non-empty batch is reported sent and nothing is |
| Batching.UsedIsLength | src/common/dawn_command_buffer.cpp:27-32 | the offset is the payload plus one header a command |
| Batching.CallsKeep | src/common/dawn_command_buffer.cpp:15-47 | after any calls every batch is non-empty and fits with its marker, and batches plus open commands are the accepted commands in order |
| Batching.GreedyStaysAhead | src/common/dawn_command_buffer.cpp:20-25 | against any cut of the same commands: no more batches, and on a tie an open batch no fuller than the cut's last |
| Batching.GreedyIsOptimal | src/common/dawn_command_buffer.cpp:20-25 | the implicit flushes and a final one make the fewest order-preserving batches that fit |
| EndToEnd.BatchMeans | src/common/dawn_command_transport.cpp:78-107 | one fitting batch is one handler call with its concatenated payloads, whatever the handler answers |
| EndToEnd.PrefixDelivers | src/common/dawn_command_transport.cpp:83-90 | after any number of bytes of a sender-made stream: one call per wholly arrived batch, no implicit flush, never a null destination |
| EndToEnd.EndToEnd | src/common/dawn_command_buffer.cpp:15-47 | for any calls on the sender and any prefix delivered, the handler calls are a prefix of the batches, all of them at the end, whatever the handler answers |
| Delivery.DeliversExactly | src/common/dawn_command_buffer.cpp:36-47 | "delivers" is success with exactly the batch on the wire |
| Delivery.WorkingDelivers | src/common/dawn_command_transport.cpp:28-43 | a connected transport whose send calls take everything delivers every flush of every run |
| Delivery.DeliversOrFails | src/common/dawn_command_transport.cpp:37-40 | where no send is short, a flush delivers or fails at one definite send after full ones |
| Delivery.DeliveredRun | src/common/dawn_command_buffer.cpp:15-47 | any calls whose own flushes were sent in full leave exactly the encoding of the batches on the wire |
| Delivery.OrderedToFailure | src/common/dawn_command_buffer.cpp:44-46 | through the first failing flush the wire stays a prefix of what the batches encode to |
| Delivery.FirstFailure | src/common/dawn_command_transport.cpp:37-40 | when a flush first fails at its m-th send: m whole chunks of that batch on the wire, the receiver handles exactly the batches before it and never lacks space |
| Server.PutCommand | src/common/dawn_command_buffer.cpp:15-34 | asking for space and filling it, under every kernel: the batches, the open commands, the wire and whether there was space |
| Server.DDWGPUServer.HandleCommands | src/server/webgpu_server.cpp:19-23 | the batch handed on once, its result returned, the buffer emptied; if its flushes deliver, all its replies and nothing else on the wire before the call returns |
| Session.Issue | src/common/dawn_command_buffer.cpp:15-47 | any calls on a real buffer and transport, under every kernel, leave the buffer and the wire the specification gives |
| Session.ReceiveFrom | src/common/dawn_command_transport.cpp:46-111 | Recv on what such a sender put on the wire, also after a failed flush, in any chunks: exactly the wholly arrived batches are handled, and space never fails |
| Session.Exchange | src/common/dawn_command_transport.cpp:46-111 | sender and receiver classes together: the handler sees the wholly arrived batches, and all of them once every byte of a delivered run is read |
| Protocol.RunKeeps | src/server/webgpu_server.cpp:19-23 | the invariant of both directions and of the replies holds after every interleaving of client, server and wires |
| Protocol.ClientBox | src/common/dawn_command_buffer.cpp:15-47 | in every reachable state the client's buffer is what its calls, in order, make of an empty one |
| Protocol.RepliesAreMade | src/server/webgpu_server.cpp:19-23 | in every reachable state the server's replies, grouped by handler call, are the bodies of the reply actions that came during the call and fit; a call runs from its marker to its flush |
| Protocol.HandlingReadsNothing | src/common/dawn_command_transport.cpp:105-108 | while a handler call runs the server reads and parses nothing |
| Protocol.ProtocolIsFaithful | src/common/dawn_command_buffer.cpp:36-47 | in every reachable state the payload of the client's accepted calls, and of the reply actions during the server's calls, is handled, buffered, in flight or in the send buffer, in that order; calls are the arrived batches |
| Protocol.RepliesKeepOrder | src/server/webgpu_server.cpp:19-23 | in every reachable state the reply bodies of one batch leave before those of the next, no reply batch mixes two, and the server's buffer is empty between batches |
| Protocol.QuietMeansDelivered | src/server/webgpu_server.cpp:19-23 | with nothing in flight, each side has handled exactly what the other sent, one group of replies a batch |
| Protocol.EveryRunCanDrain | src/common/dawn_command_transport.cpp:53-66 | from every reachable state, receiving, parsing and the server's flush alone lead to such a quiet state |
| Matrix.CellInjective | src/examples/matmul_cpu.hpp:13 | different cells have different indices |
| Matrix.CellOnto | src/examples/matmul_cpu.hpp:13 | every index of the matrix is a cell |
| Matrix.Index | src/examples/matmul_cpu.hpp:13-15 | up to dimension 65536 the 32-bit index is j + dim * i, neither wrapped nor outside the array |
| Matrix.Accumulate | src/examples/matmul_cpu.hpp:14-15 | accumulating in 32 bits is the integer sum modulo 2^32 |
| Matrix.EntryMeans | src/examples/matmul_cpu.hpp:13-15 | what the loops accumulate in res[j + dim * i] is, modulo 2^32, the sum over k of a[k + dim * i] * b[j + dim * k] |
| Matrix.ProductUnique | src/examples/matmul_cpu.hpp:8-18 | those entries leave no word of the result open |
| TiledCpu.OneOwner | src/examples/matmul_cpu.hpp:8-15 | every word of the result belongs to exactly one cell of exactly one thread's tile |
| TiledCpu.TilesInsideExactly | src/examples/matmul_cpu.hpp:8-12 | the threads' cells stay inside the matrix if and only if 64 divides the dimension |
| TiledCpu.OthersKeep | src/examples/matmul_cpu.hpp:10-19 | a step of one thread leaves all facts of every other thread alone |
| TiledCpu.ScheduleKeeps | src/examples/matmul_cpu.hpp:8-26 | after any interleaving of starts, single memory accesses and joins, every thread owns its tile and its finished cells are product entries |
| TiledCpu.EveryScheduleMultiplies | src/examples/matmul_cpu.hpp:8-26 | every schedule that has joined all threads ends with the product modulo 2^32, whatever the result array held |
| TiledCpu.StepsPossible | src/examples/matmul_cpu.hpp:8-26 | the interleavings considered: any started thread may take its next access at any time, starts and joins go in loop order |
| TiledCpu.NeverStuck | src/examples/matmul_cpu.hpp:20-26 | until all threads are joined some step is possible |
| TiledCpu.SchedulesAgree | src/examples/matmul_cpu.hpp:8-26 | any two complete schedules, from any two initial results, end with the same array |
| TiledCpu.EveryScheduleEnds | src/examples/matmul_cpu.hpp:8-26 | every schedule of possible steps has all threads joined exactly when it has a fixed length, and is never longer |
| TiledCpu.EveryScheduleExtends | src/examples/matmul_cpu.hpp:8-26 | every schedule of possible steps can be carried on until all threads are joined |
| CpuLoops.ThreadBody | src/examples/matmul_cpu.hpp:11-18 | one thread's loops make exactly its tile the product and leave every other cell |
| CpuLoops.MultiplyMatrices | src/examples/matmul_cpu.hpp:8-26 | the loops over all tiles make the whole array the product |
| Gpu.KernelMain | src/examples/matmul_gpu.hpp:32-42 | one invocation writes its product entry to its cell and nothing else |
| Gpu.GlobalIds | src/examples/matmul_gpu.hpp:162 | dim / 16 workgroups of 16 launch each row below dim - dim % 16 once and no other |
| Gpu.Dispatch | src/examples/matmul_gpu.hpp:162 | in any order of invocations the leading square is the product and every other cell keeps its uploaded value |
| Gpu.WholeProductExactly | src/examples/matmul_gpu.hpp:142-162 | the download is the whole product if and only if the cells the dispatch misses already held it |
| Gpu.ProductForEveryUpload | src/examples/matmul_gpu.hpp:162 | every upload and invocation order give the product if and only if 16 divides the dimension |
| Gpu.FailingUpload | src/examples/matmul_gpu.hpp:142-162 | for any other dimension, an upload and an order whose download is not the product |
| Gpu.CpuAndGpuAgree | src/examples/matmul_gpu.hpp:31-42 | for dimensions the CPU version covers, any invocation order and any thread schedule give the same array |
| Collatz.TrajectoryIsOrbit | src/examples/client.cpp:186-191 | a sequence that halves even values and takes odd n to 3n + 1 until it leaves 2 to 2^32 - 1 is the model's orbit up to its first exit |
| Collatz.OrbitIsTrajectory | src/examples/client.cpp:186-191 | and that orbit is such a sequence |
| Collatz.StepsBounded | src/examples/client.cpp:192-213 | a trajectory that ends takes at most 2^32 - 2 steps inside the 32-bit words, its values being distinct |
| Collatz.CollatzIterations | src/examples/client.cpp:192-213 | on the trajectory written out: its number of steps when it ends at 1 or 0, else 4294967295, and that value only then; no wrap of either variable |
| Collatz.SentinelIsUnambiguous | src/examples/client.cpp:203-206 | the first exit of a trajectory is over the words if and only if it exceeds them before reaching 1, and no step count is the sentinel |

## Left out

- Sockets, accepting connections, descriptor passing, `fsync` and `errno` details: foreign calls.
- Dawn's wire client and server and its chunked serializer: handlers and callers are arbitrary here.
- src/client/proc.cpp and include/webgpu.h: forwarding and declarations.
- src/client/webgpudd.cpp: start-up globals and two maps; one receiver per connection is assumed, not derived.
- `RecvBuffer::GetMaximumAllocationSize`: not called by `Recv`, whose buffer takes commands up to its full capacity.
- Data races on `SendBuffer`: it has no lock; calls are taken one at a time.
- The stream after the first failed flush, or a short or unconnected send: the sending side is followed, the receiving side only while the wire is a prefix of the batches.
- SendBuffers.SendBuffer.GetCmdSpace: sizes within 24 of 2^64, where the source's sum wraps, are excluded by a precondition; no caller can hold such a command.
- Server.DDWGPUServer.HandleCommands: not reached through `RecvBuffer`'s handler field, whose class records calls only; `Protocol` composes the two on values.
- Server.WireServer.HandleCommands: the commands are not interpreted; which replies a batch causes is a parameter.
- Protocol: the two sides' memory is values, not the arrays of the classes; delivery is assumed reliable.
- Collatz.CollatzIterations: starts whose trajectory neither ends nor leaves the words are excluded by a precondition, termination being the open conjecture.
- Gpu.Dispatch: one invocation runs at a time; each writes only its own cell, once, and reads only inputs.
- TiledCpu.EveryScheduleMultiplies: accesses are interleaved one at a time, in each thread's program order; a weaker memory model is not considered.
- The in-place kernel `main` around `collatz_iterations`, timing, printing and WebGPU set-up in the examples.

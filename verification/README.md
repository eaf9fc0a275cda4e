# Embedded 802.11 link protocol: verified model

This project models the serial link protocol of embedded80211 in Dafny and proves what it
promises over whole runs. The protocol has a 4-byte header, payloads of up to 4096 bytes,
4-bit sequence numbers, acknowledgements, and a PROTOCOL_INFO exchange for resynchronising.
It is implemented three times: in C on the device, in C on the host and in Rust on the host.

`dafny verify dfyconfig.toml` checks everything.

## How the model is built

| file | what it holds |
|---|---|
| `Wire.dfy`, `Stream.dfy` | the header codec, and what a byte stream means as a whole |
| `Uart.dfy` | the UART as a byte queue with arbitrary partial reads; the transmit loop |
| `HostReceiver.dfy` | the C host's interrupt and work item (`RxBus`), refined against `Stream.Parse` |
| `RustFrame.dfy` | the Rust codec and blocking reader, compared with the C codec and `Stream.Parse` |
| `Protocol.dfy` | the device's reaction to whole frames, and laws about streams of them |
| `Landing.dfy`, `PayloadLoop.dfy` | where the pieces of a payload land in a client's buffer, and the device's payload loop on values |
| `DeviceReceiver.dfy`, `DeviceRun.dfy` | the device's interrupt and work handler (`SerialDevice`), refining `Protocol.ReactAll` for every split |
| `Hci.dfy` | Bluetooth commands from the Rust host into the HCI proxy |
| `Link.dfy`, `Runs.dfy` | the two directions as queues with losses, delays, client frames and device restarts |
| `Once.dfy`, `Session.dfy`, `SessionOutcome.dfy`, `SessionLimits.dfy` | the Rust `Session::request` over that link, how it ends in terms of the frames it reads, and exactly when it is at-most-once |
| `LinkState.dfy`, `HostBus.dfy`, `BusOutcome.dfy`, `Narrowing.dfy` | the C host's `bus_sync`, `bus_request` and `bus_send`, how a request ends, the invariants of the link they rest on, and lengths beyond 16 bits |
| `Resync.dfy`, `PromptBus.dfy` | exactly when a resynchronisation can be trusted; the C host on a lossless link |
| `Streaming.dfy`, `SendRace.dfy` | streams of `bus_send` from one thread, and from several that read, load and store the counter without a lock |
| `AckTraffic.dfy` | the acknowledgements both sides provoke |
| `Transmit.dfy`, `DeviceTransmit.dfy` | threads writing to one wire under a mutex, per frame on the host and per block on the device |
| `Multiplexer.dfy`, `Scan.dfy` | the supported-types mask; the scan collector |

Classes follow the C structs and the Rust `Session`; their methods change fields in place
and are proved against functions on values (`Receiver`, `Snap`, `Device`, `BusState`,
`SessionState`), about which the laws are then stated. Nondeterminism is explicit.
`Uart.Port.Read` returns any non-empty part of what is waiting. `Link.Port` runs an
arbitrary script of events. A schedule, an interleaving or a list of chunks is a
parameter, so a claim about all of them is a claim about every run. Bit operations are
written as arithmetic on bytes.

## Where the code departs from its documentation

The model follows the code; each departure is stated as a contract or a lemma. Where a
promise fails, its exact condition is proved.

- `bus_request` documents one retry after a sequence refusal. Its loop guard ends it after
  the resynchronisation, so one request frame is sent and a request to which a refusal was
  handed over always times out (`HostBus.RequestOutcome`).
- A resynchronisation of the C host makes the two counters equal in every run if and only
  if nothing in flight can mislead it (`Resync.MeetsIffResyncable`). A PROTOCOL_INFO
  acknowledgement between two requests in flight is enough to mislead it, without any loss
  or restart (`Resync.StaleAnswerAdopted`).
- `bus_request` starts its timeout anew with every frame, and `bus_sync` leaves behind a
  PROTOCOL_INFO exchange that never ends, because the device takes the acknowledgement of
  its answer for a query. On a lossless link a request that its client does not answer
  therefore never returns (`PromptBus.ReturnsIffQuiet`, `AckTraffic.DiesOutIff`).
- `bus_send` and `bus_request` read their number, load the counter and store the next one
  without a lock, and take the transmit mutex only then. For every interleaving of any
  threads `SendRace.SendersExactIff` gives the exact condition for the device to accept
  everything. Two threads that read before either stores send the same number, even
  when the mutex keeps their order (`SendRace.SameNumberTwice`); numbers taken one at a
  time are accepted iff the mutex keeps their order (`SendRace.SendersInStepIff`).
- `Session::request` drains only what has arrived. Its command is accepted at most once in
  every run if and only if no command or refusal still in flight can be mistaken
  (`SessionLimits.OnceIffUnambiguous`).
- The work handler keeps the header's length after a finished data frame. It therefore
  eats whatever follows the frame in the FIFO, and judges it by the header it has
  (`PayloadLoop.WhatFollowsIsEaten`).
- A client that advances its own offset gets the second and later pieces of a frame at
  twice the offset, because the handler adds the bytes read as well. The message it is
  told about is the payload if and only if the frame came in one read
  (`PayloadLoop.MessageIntactIff`), and writes leave its buffer under an exact condition
  (`PayloadLoop.InsideIff`).
- For a data type without a client the handler never returns, and for a PROTOCOL_INFO frame
  it spins while payload is missing (`DeviceReceiver.SerialDevice.WorkHandler`).
- The HCI proxy counts one header byte too many in ACL packets, so that none of the layout
  the Bluetooth Core Specification gives is forwarded (`Hci.AclDropped`).
- The device takes the transmit mutex per block rather than per frame; its frames stay
  whole in every interleaving if and only if at most one thread sends or no frame has a
  payload (`DeviceTransmit.DeviceUnbrokenIff`).

## Assumptions

- The receive work items run only while a frame is in its payload stage; the C code does not
  check this. Handing a frame to a waiting requester is one atomic step.
- A UART read returns at least one byte when one is waiting. A driver error on reading is a
  read that returns nothing.
- A frame is transmitted and received as a unit in the frame-level modules. For lengths of
  65536 and more, which `bus_send` and `bus_request` narrow to 16 bits, this is not so;
  `Narrowing.NarrowedLength` says what a receiver sees.
- The device's interrupt does not run inside the work handler. The handler returns the
  parser to TYPE and goes on reading, so on a plain UART the interrupt could take bytes
  in between.
- Device clients do not send PROTOCOL_INFO frames or sequence refusals of their own
  (`Link.Honest`).
- Which frames are still in transit when the Rust host drains its port is part of the
  script (`Link.InTransit`); without such an event everything in flight has arrived.
- Frame-level modules (`Link` and those built on it) let the device react as
  `Protocol.React`, which `DeviceRun.ReceiveAll` proves of the byte-level device for frames
  delivered one at a time with buffers available.
- A device restart clears the counters and ends a handler that does not return.

## Model

| member | source | states |
|---|---|---|
| `Wire.HeaderRoundTrip` | embedded80211/zephyr/include/embedded80211/bus.h:53-72 | header encoding and decoding are mutually inverse on all headers and on all 4-byte words |
| `Wire.AdvanceNext` | embedded80211/zephyr/include/embedded80211/bus.h:75-78 | stepping the counter is addition modulo 16 |
| `Wire.AckBytes` | embedded80211/zephyr/device/serial/serial.c:223-236 | an acknowledgement on the wire: error, direction and type in the first byte, the number in the second, length 0 |
| `Stream.ParseSound` | embedded80211/zephyr/host/bus.c:128-254 | cutting a stream into items loses, invents and reorders nothing, and leaves an unfinished tail |
| `Stream.ParseComplete` | embedded80211/zephyr/host/bus.c:128-254 | the parse is the only way to cut a stream into well-formed items and an unfinished tail |
| `Uart.DataTx` | embedded80211/zephyr/host/bus.c:69-92 | for all fill results and delays the loop ends at the first driver error, at the first full FIFO more than 500 ms after the start (time on the mutex and in the driver included) or when all is written, and at nothing else; what is on the wire is what the driver took; the number of driver calls is bounded |
| `HostReceiver.RxBus.HeaderByte` | embedded80211/zephyr/host/bus.c:138-178 | one header byte moves the parser as `OnHeaderByte`; an oversized length is refused |
| `HostReceiver.HeaderByteTracks` | embedded80211/zephyr/host/bus.c:138-178 | a header byte keeps the invariant tying effects to the items finished so far |
| `HostReceiver.CompleteTracks` | embedded80211/zephyr/host/bus.c:219-253 | finishing a frame keeps that invariant |
| `HostReceiver.RxBus.RxIsr` | embedded80211/zephyr/host/bus.c:128-184 | the interrupt keeps the invariant, neither loses nor duplicates a byte, and stops only at a complete header or an empty FIFO |
| `HostReceiver.RxBus.ReadPayload` | embedded80211/zephyr/host/bus.c:203-211 | the payload loop fills the buffer in order, never past the length, and stops short only when the FIFO is empty |
| `HostReceiver.RxBus.Dispatch` | embedded80211/zephyr/host/bus.c:219-253 | a valid frame adds exactly one upcall with this header and the bytes read: to the requester iff one is waiting, else to a handler iff it carries data of a type with one; it is acknowledged under its own number iff it carries data and wants it; an invalid one adds neither; the waiting requester is woken with this header, otherwise neither its signal nor its header changes |
| `HostReceiver.ItemDecided` | embedded80211/zephyr/host/bus.c:109-253 | item by item of any stream: an oversized header is refused under its own number and not handed over, a valid frame is handed over and acknowledged under its own number iff it carries data and wants it, an invalid one is dropped |
| `HostReceiver.RxBus.RxWork` | embedded80211/zephyr/host/bus.c:196-254 | the work item keeps the invariant and returns to TYPE exactly when the rest of the payload was there |
| `HostReceiver.Receive` | embedded80211/zephyr/host/bus.c:128-254 | for every byte stream, every split into deliveries, every schedule of interrupt, work and waiting requesters and all partial reads: frames handed over and acknowledgements sent are those of the whole-stream parse, the parser is in TYPE exactly at item boundaries, and each frame goes to the requester iff one was waiting at the step that handed it over, else to a handler iff it carries data of a type with one |
| `RustFrame.ParseAgreesWithC` | cli_test/src/protocol.rs:133-158 | the Rust parser accepts a byte sequence iff the C decoder and `bus_validate_rx` accept its header and exactly the payload follows; both see the same frame |
| `RustFrame.ParseDecided` | cli_test/src/protocol.rs:133-158 | which byte sequences both parsers accept, and that the Rust host's error and type values are the C constants: what it takes for a sequence refusal is what the device sends |
| `RustFrame.EncodeRoundTrip` | cli_test/src/protocol.rs:162-172 | what the Rust host encodes parses back iff the payload has at most 4096 bytes, and is then the C encoding |
| `RustFrame.SerialPort.ReadBytes` | cli_test/src/protocol.rs:469-485 | bytes come in order, and fewer than asked only when the deadline has passed |
| `RustFrame.SerialPort.ReadFrame` | cli_test/src/protocol.rs:488-509 | a call consumes exactly the first item of the stream and returns its outcome, unless the deadline passes before that item has been read |
| `RustFrame.ReadFrames` | cli_test/src/protocol.rs:488-509 | n calls before the deadline return the outcomes of the first n items in order, so a malformed frame costs one failed call and no alignment |
| `Protocol.InfoIsTransparent` | embedded80211/zephyr/device/serial/serial.c:243-308 | PROTOCOL_INFO frames and acknowledgements anywhere in a run leave the receive counter and the clients as if never sent |
| `Protocol.ReportedNumberIsNext` | embedded80211/zephyr/device/serial/serial.c:243-263 | the number reported at any point of any run is the one number with which the next data frame is accepted |
| `Protocol.StreamJudged` | embedded80211/zephyr/device/serial/serial.c:354-378 | over any stream of wired data frames the accepted frames, the counter and the replies are those counted off from the last refusal, with one error acknowledgement naming the expected number per refused frame |
| `Protocol.RepliesDecided` | embedded80211/zephyr/device/serial/serial.c:354-378 | field by field, for every frame of any stream of wired data frames: refused, one reply with the number expected then, the error, the frame's type and length 0; accepted, one with its own number and no error, or none if it wants none |
| `Protocol.ReplyDecided` | embedded80211/zephyr/device/serial/serial.c:223-378 | what any one frame draws from any device, field by field, the PROTOCOL_INFO answer byte by byte |
| `Protocol.RunsAreConsecutive` | embedded80211/zephyr/device/serial/serial.c:354-370 | accepted numbers between refusals are consecutive modulo 16 and start at 0 after a refusal |
| `Protocol.AllAcceptedIff` | embedded80211/zephyr/device/serial/serial.c:354-370 | a stream of wired data frames is accepted as a whole iff its numbers count up modulo 16 from the one the device expects |
| `PayloadLoop.TrailTurn` | embedded80211/zephyr/device/serial/serial.c:340-387 | one turn adds its read to the pieces of the frame, each written at the client's address plus the bytes read, or completes the frame and judges it on what has landed at the start of the buffer |
| `PayloadLoop.DevouredTurn` | embedded80211/zephyr/device/serial/serial.c:380-388 | after the frame, a turn goes on cutting the FIFO into frames that carry the finished frame's header |
| `PayloadLoop.NoRoomRefused` | embedded80211/zephyr/device/serial/serial.c:331-338 | a frame its client has no room for is refused under its own number, and FIFO, buffer and counters are untouched |
| `PayloadLoop.InsideIff` | embedded80211/zephyr/device/serial/serial.c:340-386 | for every way of reading a frame into an advancing client, all writes stay inside its buffer iff where the last piece begins plus the length does; otherwise the payload's last byte lands outside |
| `PayloadLoop.MessageIntactIff` | embedded80211/zephyr/device/serial/serial.c:340-386 | the message is the payload, whatever the buffer held before, iff the client started at the beginning of its buffer and the frame came in one read; otherwise a named byte of it is left over from before |
| `PayloadLoop.AdvancingOutcome` | embedded80211/zephyr/device/serial/serial.c:354-388 | what is handed on, acknowledged and left in the client: an accepted frame as it landed, and after a refused one the fill count of the last piece, with an OUT_OF_BUFFERS acknowledgement on top iff a write went outside |
| `PayloadLoop.TwoReadsOverrun` | embedded80211/zephyr/device/serial/serial.c:340-386 | two reads of two bytes into a buffer of four: the second lands outside, and the message's second half is what the buffer held before |
| `PayloadLoop.FalseVerdicts` | embedded80211/zephyr/device/serial/serial.c:354-388 | pieces judged by the header of a frame just accepted: the first is refused and resets the counter, and if the number is 0 every second one is accepted |
| `PayloadLoop.FalseVerdictsAfterRefusal` | embedded80211/zephyr/device/serial/serial.c:354-388 | the same behind a frame just refused: if the number is 0 the first piece and every second one after it is accepted |
| `PayloadLoop.LappedTurn` | embedded80211/zephyr/device/serial/serial.c:331-387 | one turn of an advancing client's loop behind the frame: part of a lap, a whole lap judged where it landed, or the end |
| `PayloadLoop.LapsEat` | embedded80211/zephyr/device/serial/serial.c:331-387 | an advancing client read at once with frames back to back: what follows is judged in pieces of the first frame's length, and the rest stays in the fill count |
| `PayloadLoop.WhatFollowsIsEaten` | embedded80211/zephyr/device/serial/serial.c:380-388 | for a frame read straight, by a fixed-base or an advancing client: the handler keeps the stream aligned iff nothing followed the frame in the FIFO; behind an accepted and behind a refused frame the counter and the number of bogus messages are exactly told, and an advancing client keeps the fill count of the last, partial piece |
| `DeviceReceiver.Client.Complete` | embedded80211/zephyr/device/serial/serial.c:364-365 | the message a client is told about is the start of its buffer, and an advancing client starts over |
| `DeviceReceiver.SerialDevice.constructor` | embedded80211/zephyr/device/serial/serial.c:393-411 | both counters start at 0 in TYPE |
| `DeviceReceiver.SerialDevice.HeaderByte` | embedded80211/zephyr/device/serial/serial.c:157-209 | one header byte moves the device's parser as `ScanByte`, whatever the struct held before |
| `DeviceReceiver.ScanDecided` | embedded80211/zephyr/device/serial/serial.c:152-203 | a length-0 header that is no query leaves no trace, an oversized one is refused once under its own number and scanning goes on behind it, any other stops the interrupt for the payload stage |
| `DeviceReceiver.SerialDevice.UartIrq` | embedded80211/zephyr/device/serial/serial.c:132-221 | the interrupt scans exactly up to the first header with a payload stage, dropping acknowledgements and refusing oversized lengths on the way |
| `DeviceReceiver.SerialDevice.Judge` | embedded80211/zephyr/device/serial/serial.c:354-378 | a complete frame is accepted, refused and acknowledged as `React` says |
| `DeviceReceiver.SerialDevice.WiredTurn` | embedded80211/zephyr/device/serial/serial.c:331-387 | the whole new state of one turn of the loop: no buffer, nothing to read, a chunk, or a judged frame |
| `DeviceReceiver.SerialDevice.WiredLoop` | embedded80211/zephyr/device/serial/serial.c:285-388 | for every client, whatever the reads and whatever follows: without room the frame is refused and left in the FIFO; otherwise it stays incomplete with its pieces landed, or is judged on what landed, and what follows is eaten piece by piece (fixed base), or lap by lap where the fill count has got to, until the FIFO is empty or the client has no room (advancing) |
| `DeviceReceiver.SerialDevice.HandleProtocolInfo` | embedded80211/zephyr/device/serial/serial.c:243-263 | the answer carries version, mask and expected number, and only the transmit counter moves |
| `DeviceReceiver.SerialDevice.InfoLoop` | embedded80211/zephyr/device/serial/serial.c:288-308 | with bytes arriving while the handler spins: the payload and no more is discarded and one answer sent, or all that ever arrives is less than the payload and the loop's guard holds for ever |
| `DeviceReceiver.SerialDevice.UnwiredLoop` | embedded80211/zephyr/device/serial/serial.c:310-329 | a type without a client makes the loop eat the FIFO and all that arrives later, one error acknowledgement per piece of the frame's length, with the counter and clients unchanged and the loop's guard still true |
| `DeviceReceiver.SerialDevice.WorkHandler` | embedded80211/zephyr/device/serial/serial.c:265-391 | which branch a frame takes and what it leaves, including the acknowledgements and the unchanged device for a type without a client; the handler fails to return iff the type has no client or a PROTOCOL_INFO payload never arrives in full, and then its guard holds with nothing left to read |
| `DeviceRun.ReceiveData` | embedded80211/zephyr/device/serial/serial.c:285-388 | for every split of a frame over deliveries, every size of read and every client: the device judges the frame on what has landed from the pieces read, which join up to the payload; delivered and read at once there is one piece |
| `DeviceRun.ReceiveFrame` | embedded80211/zephyr/device/serial/serial.c:285-388 | a frame read straight (fixed base with any split, advancing with the payload in one read): the device reacts exactly as `React` on that frame, and nothing outside the client's buffer is written |
| `DeviceRun.SplitFrameCorrupted` | embedded80211/zephyr/device/serial/serial.c:340-386 | an accepted frame that an advancing client did not read straight is handed on with a byte left over from before |
| `DeviceRun.ReceiveOther` | embedded80211/zephyr/device/serial/serial.c:276-308 | PROTOCOL_INFO frames of any length and host acknowledgements have exactly the effect of `React`, however header and payload are split |
| `DeviceRun.ReceiveAll` | embedded80211/zephyr/device/serial/serial.c:132-391 | for every stream of data frames, PROTOCOL_INFO frames and acknowledgements, any mix of fixed-base clients with every split and advancing clients read at once, the byte-level device refines `ReactAll` and writes past no client's buffer |
| `Hci.StaleBytesIrrelevant` | embedded80211/zephyr/device/bt_proxy.c:132-177 | bytes of earlier packets never decide whether or what is forwarded |
| `Hci.CommandForwarded` | embedded80211/zephyr/device/bt_proxy.c:132-217 | a command packet that fits is forwarded byte for byte iff it has at most 255 parameter bytes |
| `Hci.ForwardedIff` | embedded80211/zephyr/device/bt_proxy.c:132-217 | which packets are forwarded, for every packet: commands that are as long as they say and type-2 packets one byte longer than they say, unchanged, and nothing else |
| `Hci.AclDropped` | embedded80211/zephyr/device/bt_proxy.c:143-148 | an ACL packet laid out as the Bluetooth Core Specification says is never forwarded; with exactly one byte behind it it is |
| `Hci.ReceiveAtOnce` | embedded80211/zephyr/device/bt_proxy.c:104-125 | an HCI frame received in one read is judged on exactly its payload and leaves the fill count at 0 |
| `Hci.ReceiveStream` | embedded80211/zephyr/device/bt_proxy.c:104-217 | over any accepted or refused single-read HCI frames the fill count is 0 at every boundary and the device reacts as `ReactAll` |
| `Hci.CommandEndToEnd` | cli_test/src/protocol.rs:240-248 | on any device at a frame boundary, a command the Rust host encodes with the expected number is accepted and acknowledged, and the controller gets exactly the packet built iff it has at most 255 parameter bytes |
| `Once.ApplyAtMostOnce` | embedded80211/zephyr/device/serial/serial.c:354-378 | whatever happens on the link, of the commands in flight only the newest can be accepted, and only once |
| `Once.ApplyRefusalsMean` | embedded80211/zephyr/device/serial/serial.c:354-361 | whatever happens, a refusal on its way back means that nothing in flight will be accepted |
| `Once.AwaitedWatched` | embedded80211/zephyr/device/serial/serial.c:354-378 | both over any number of events, and what a host knows when it has read a refusal |
| `Session.CommandBytes` | cli_test/src/protocol.rs:162-172 | the session's command frames are what the Rust encoder writes |
| `Session.QueryBytes` | cli_test/src/protocol.rs:177-179 | the session's query on the wire |
| `Session.Session.Send` | cli_test/src/protocol.rs:513-528 | what has arrived is discarded before the frame is written; frames in transit stay |
| `Session.Session.Synchronise` | cli_test/src/protocol.rs:532-543 | `sync` is `Sync`: queries until a PROTOCOL_INFO answer is read, whose number is adopted; `SessionOutcome.SyncDecided` says it of the frames |
| `Session.Session.Ask` | cli_test/src/protocol.rs:549-583 | `request` is `Request`: the whole state after any run, including when it resends; what `Request` returns is said by `SessionOutcome.RequestDecided` |
| `Session.RequestCounts` | cli_test/src/protocol.rs:549-583 | in any run two command frames at most, the second iff it retried, and four queries at most; a response or error is the frame read last |
| `SessionOutcome.SyncDecided` | cli_test/src/protocol.rs:532-543 | in any run, from the frames read: the first PROTOCOL_INFO answer ends it after as many queries as frames and its number is adopted; without one all four queries were sent, or a read timed out |
| `SessionOutcome.RequestDecided` | cli_test/src/protocol.rs:549-583 | in any run, from the frames read: without a refusal the first error or match decides, an error giving `DeviceError` with its code and a match that frame, and without either the call times out; the first refusal starts `sync`, whose failure is a timeout and whose success one resend, and from there the first error, a second refusal included, or match decides; the counter in each case; the frames written are the command, the queries, and after an answer the command once more with the number it tells |
| `SessionOutcome.RequestTimesOut` | cli_test/src/protocol.rs:549-583 | a timeout means that the deadline was the last thing to happen, that nothing was left in flight, or that `sync` spent its four queries |
| `SessionOutcome.DecisiveBytes` | cli_test/src/protocol.rs:560-583 | which bytes make a refusal, an answer and a frame that is passed over |
| `Session.RequestAtMostOnce` | cli_test/src/protocol.rs:549-583 | in any run with losses, delays, client frames and restarts, and in all events after the call has returned, the device accepts the command at most once and nothing else, if what is in flight is unambiguous |
| `SessionLimits.OnceIffUnambiguous` | cli_test/src/protocol.rs:513-583 | that holds in every run, during the call and after it, iff every earlier command in flight carries neither the expected number nor 0, the new one then not 0, and with a refusal in flight neither |
| `SessionLimits.AmbiguousGoesWrong` | cli_test/src/protocol.rs:561-570 | for every other link there is a run in which the device accepts two commands |
| `Session.RequestServed` | cli_test/src/protocol.rs:549-583 | on an idle link, from any two counters: exactly one acceptance, one resynchronisation and one resend iff the counters differed, counters equal afterwards; of the client's answers the first error or match is the result, and a timeout means there was none |
| `Session.RequestAll` | cli_test/src/protocol.rs:549-583 | for any list of requests with device restarts anywhere between, the device accepts exactly these commands once each in order and the counters stay equal |
| `LinkState.ApplyInStep` | embedded80211/zephyr/device/serial/serial.c:354-370 | without upward losses and restarts, events keep the numbers in flight consecutive from the device's, and lose or reorder no command |
| `LinkState.ApplyOrdered` | embedded80211/zephyr/device/serial/serial.c:354-361 | events keep the order of refusals and PROTOCOL_INFO answers: behind a refusal every answer tells 0, which is what the device expects |
| `LinkState.ApplyTruthful` | embedded80211/zephyr/device/serial/serial.c:243-263 | with no command in flight, events keep every answer in flight true |
| `LinkState.ApplyCleared` | embedded80211/zephyr/device/serial/serial.c:354-361 | once the device expects 0 and nothing in flight carries it, events keep it so and every answer in flight tells 0 |
| `LinkState.ApplyResyncable` | embedded80211/zephyr/device/serial/serial.c:354-378 | events keep a link on which no resynchronisation can be misled that way |
| `HostBus.AutoAckIsReceivers` | embedded80211/zephyr/host/bus.c:234-239 | the acknowledgements at frame level are those of the byte-level receiver |
| `HostBus.Bus.TakeFrame` | embedded80211/zephyr/host/bus.c:228-253 | the next frame is handed over and acknowledged if it carries data and wants it |
| `HostBus.Bus.Synchronise` | embedded80211/zephyr/host/bus.c:256-303 | `bus_sync` is `Sync`: queries until an answer of 4 bytes is handed over; a wrong version is an error |
| `HostBus.SyncTruthful` | embedded80211/zephyr/host/bus.c:256-303 | when no command is in flight and the answers in flight are true it succeeds or times out, and success puts counter and mask at the device's |
| `HostBus.OutgoingBytes` | embedded80211/zephyr/host/bus.c:364-377 | the frame of `bus_send` and `bus_request` is, for every type, number and payload of any length, what the Rust host encodes |
| `HostBus.QueryBytes` | embedded80211/zephyr/host/bus.c:259-278 | the query of `bus_sync` on the wire |
| `HostBus.Bus.Send` | embedded80211/zephyr/host/bus.c:354-379 | for every length: accepted iff the bus is open, the type is known and the narrowed length is 1 to 4096, or 0 for PROTOCOL_INFO; which error otherwise; the frame sent carries the caller's payload unchanged, type and number, and the counter is the next |
| `Narrowing.NarrowedLength` | embedded80211/zephyr/host/bus.c:362-377 | a receiver sees a frame with exactly the first bytes of the payload, as many as the narrowed length says, and takes the rest for what follows; there is none iff the length is below 65536 |
| `HostBus.Bus.Wait` | embedded80211/zephyr/host/bus.c:411-455 | the wait loop is `AwaitResponse`; `BusOutcome.RequestDecided` says what that returns |
| `HostBus.Bus.Ask` | embedded80211/zephyr/host/bus.c:381-460 | `bus_request` is `Request`: one transmission whatever happens; accepted iff the bus is open, the type is known and the narrowed length is 1 to 4096, or 0 for PROTOCOL_INFO |
| `HostBus.RequestOutcome` | embedded80211/zephyr/host/bus.c:381-460 | in any run one request frame and never a second; success returns the first data frame of that type handed over and means no refusal before it; queries are sent, one to four, iff a refusal was handed over, and then the request times out |
| `BusOutcome.SyncDecided` | embedded80211/zephyr/host/bus.c:256-303 | in any run, from the frames handed over: the first answer of 4 bytes ends it, version 1 with success, its mask and its number, any other with an error; without one it sends all four queries and times out |
| `BusOutcome.RequestDecided` | embedded80211/zephyr/host/bus.c:381-460 | in any run, from the frames handed over: the first refusal ends the request with a timeout after `bus_sync`, the first response before it with that payload, whatever its error; without either it times out, or still waits exactly when all frames it was watched for have come; counter and mask in each case |
| `BusOutcome.RequestTimesOut` | embedded80211/zephyr/host/bus.c:411-415 | a timeout without a refusal means that the deadline was the last thing to happen or that nothing was left in flight |
| `BusOutcome.DecisiveBytes` | embedded80211/zephyr/host/bus.c:284-447 | which bytes make a refusal, an answer and a response |
| `HostBus.ResyncedInStep` | embedded80211/zephyr/host/bus.c:381-460 | a resynchronised request leaves both counters at 0 in every run from a `Resyncable` link, and host and device in step if neither commands nor refusals were in flight |
| `HostBus.RequestInStep` | embedded80211/zephyr/host/bus.c:381-460 | a request on a link in step is never refused and takes its place behind all earlier commands, with the caller's type and payload and the next number |
| `Resync.MeetsIffResyncable` | embedded80211/zephyr/host/bus.c:256-303 | in every run a resynchronised request leaves the counters equal iff no command numbered 0 follows one that may be refused, and a refusal already in flight has only commands not numbered 0 and answers telling 0 about it |
| `Resync.NotResyncableGoesWrong` | embedded80211/zephyr/host/bus.c:419-433 | for every other link there is a run in which the request resynchronises and the counters differ |
| `Resync.StaleAnswerAdopted` | embedded80211/zephyr/host/bus.c:276-300 | without losses or restarts: an earlier request and a PROTOCOL_INFO acknowledgement in flight make the host adopt 0 while the device expects 1 |
| `PromptBus.PromptSync` | embedded80211/zephyr/host/bus.c:256-303 | on a calm lossless link the first query succeeds, counter and mask are the device's, and a PROTOCOL_INFO exchange is left behind |
| `PromptBus.PromptRequest` | embedded80211/zephyr/host/bus.c:381-460 | on a calm lossless link, from any two counters: equal, accepted at once with the caller's payload and the first response returned; different, one refusal, one query, a timeout, both counters 0 and the link calm |
| `PromptBus.RefusedThenAccepted` | embedded80211/zephyr/host/bus.c:381-460 | the request after a refused one is accepted at once |
| `PromptBus.ReturnsIffQuiet` | embedded80211/zephyr/host/bus.c:411-415 | a request without a response returns iff no PROTOCOL_INFO exchange is under way |
| `Streaming.StreamNeverRefused` | embedded80211/zephyr/host/bus.c:354-379 | for a stream of any length and any interleaving, numbers in flight are rx, rx+1, ... modulo 16, the host's counter is the one after, nothing is refused, and accepted plus in flight is exactly what was pushed: the k-th push with its type, its payload and the k-th number, in order |
| `SendRace.SendersExactIff` | embedded80211/zephyr/host/bus.c:364-377 | for any threads and any interleaving of their reads, loads, stores and mutex grants, the device accepts the whole wire iff at every grant the earlier readers overtaken minus the later readers that overtook equal, modulo 16, how far the counter was behind when the number was read |
| `SendRace.OrderedSendersIff` | embedded80211/zephyr/host/bus.c:364-377 | when the mutex keeps the order of the reads, iff no number on the wire was read while the counter was behind |
| `SendRace.SendersInStepIff` | embedded80211/zephyr/host/bus.c:364-377 | when no thread reads between another's read and store and at most 16 hold a number, iff the mutex kept the order of the numbers |
| `SendRace.EqualNumbersRefused` | embedded80211/zephyr/host/bus.c:372-376 | the same number twice within 16 frames always draws a refusal |
| `SendRace.SameNumberTwice` | embedded80211/zephyr/host/bus.c:372-376 | two threads that read before either stores, in order under the mutex: the second is refused |
| `SendRace.OvertakenSenderRefused` | embedded80211/zephyr/host/bus.c:372-377 | numbers taken one at a time and transmitted in the other order: refused |
| `AckTraffic.AcksDieOut` | embedded80211/zephyr/host/bus.c:234-239 | device frames of other types cost exactly one host acknowledgement each if they carry data and want one, and none otherwise, in every schedule, then there is silence, and the device is unchanged |
| `AckTraffic.InfoNeverDiesOut` | embedded80211/zephyr/device/serial/serial.c:256-283 | in every schedule the number of frames that provoke another PROTOCOL_INFO frame stays constant, so the exchange never ends |
| `AckTraffic.DiesOutIff` | embedded80211/zephyr/host/bus.c:234-239 | whatever is in flight, host and device fall silent in every schedule iff no PROTOCOL_INFO frame is on its way up and no answer to one on its way down |
| `AckTraffic.EndlessAnswers` | embedded80211/zephyr/device/serial/serial.c:256-283 | for every n there is a run in which one answered query draws n further answers, each with the next transmit number, and nothing else in the device changes |
| `AckTraffic.AnsweredQueryIsToken` | embedded80211/zephyr/device/serial/serial.c:276-283 | one answered query is enough to start it |
| `Transmit.WireConsistent` | embedded80211/zephyr/device/serial/serial.c:39-81 | for any threads, jobs, interleaving and FIFO behaviour the wire is whole jobs then a prefix of the mutex holder's, and each thread's jobs appear once and in its order |
| `Transmit.HostWireParses` | embedded80211/zephyr/host/bus.c:94-121 | a receiver of the C host's wire sees at any moment exactly the frames sent so far, whole and in mutex order |
| `DeviceTransmit.DeviceUnbrokenIff` | embedded80211/zephyr/device/serial/serial.c:83-121 | in every interleaving the blocks written are those of whole frames, then at most one header, iff at most one thread sends or no frame has a payload |
| `DeviceTransmit.UnbrokenParses` | embedded80211/zephyr/device/serial/serial.c:111-114 | a receiver of such a wire sees exactly these frames |
| `DeviceTransmit.SeparatedFrameMisread` | embedded80211/zephyr/device/serial/serial.c:111-114 | with any blocks between a frame's header and payload, whole frames before and anything after: the frames before are seen, and the next item is the frame iff its payload begins what follows its header |
| `Multiplexer.SupportedTypesMask` | embedded80211/zephyr/device/multiplexer.c:174-186 | for every client table bit i is set iff type i has all three callbacks or is PROTOCOL_INFO, and no bit above 8 |
| `Multiplexer.LearnTypes` | embedded80211/zephyr/device/serial/serial.c:243-263 | both hosts decode the same mask and number from the answer, and a data frame gets past the device's receive guard iff the bit of its type is set |
| `Multiplexer.RustTakesAnyVersion` | cli_test/src/protocol.rs:191-207 | the Rust host takes every well-formed answer and its mask and number, whatever the version |
| `Scan.Collector.Result` | embedded80211/zephyr/device/wifi_mgmt_proxy.c:362-388 | the buffer holds the first results of the scan up to its size, in order |
| `Scan.Collector.ScanDone` | embedded80211/zephyr/device/wifi_mgmt_proxy.c:331-360 | the notification carries exactly those and the collector starts over |
| `Scan.HandleScanDone` | embedded80211/zephyr/host/host_wifi.c:219-246 | a registered callback gets every result in order and then one terminator |
| `Scan.ReportScans` | embedded80211/zephyr/host/host_wifi.c:219-246 | for every stream of results and done events the callback sees, per finished scan, its first MAX results in order and exactly one terminator |

## Left out

- Zephyr, UART and USB drivers, `k_work`, semaphores, clocks: foreign code, represented by the assumptions above.
- Protobuf encoding, request builders, enum translators and result formatting: field copies and finite tables.
- `wifi_data.c`, `net_if_mgmt_proxy.c` and the rest of `wifi_mgmt_proxy.c` and `host_wifi.c`: handlers around driver calls.
- The virtual serial port's receive ring behind `vserial_message_complete`: the model ends at the message the client is told about.
- Transmit failures inside a frame: `bus_send_raw` ignores them; `Uart.DataTx` states what one block leaves on the wire, `Transmit` assumes none fails.
- Frames that find no buffer: `WorkHandler` states the refusal, but runs over whole streams exclude it, since the payload stays in the FIFO and the stream loses alignment.
- `Protocol.React`: after a data frame without a client the stuck device is silent, whereas the handler keeps answering pieces of what arrives (`UnwiredLoop`); those answers are refusals of another kind, which `Link.ClientEmits` covers.
- Handlers called from inside `bus_request`: frames of other types are passed over; the model does not record that their handlers run.
- `Hci.CommandEndToEnd`: packets above the proxy's 512 bytes, which find no buffer.
- `bus_open`, command-line tools, board start-up and Kconfig routing: configuration and I/O.

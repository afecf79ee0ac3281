# Ironstack: a verified model of its protocol and buffer code

Ironstack is an OpenFlow 1.0 controller written in C++. This project models the parts of it that
are algorithms in their own right and proves what they are for. `dafny verify dfyconfig.toml`
checks everything.

## What is modelled

| files | part of the system |
|---|---|
| `HalController`, `HalProtocol`, `HalProgress` | the hardware abstraction layer: transactions, barriers, callbacks, and the threads that handle them |
| `ServiceCatalog` | deferred initialisation of services that depend on each other |
| `InternetChecksum` | the IPv4, TCP and ICMP checksum routines |
| `Bytes`, `UdpPacket`, `IronscalePacket` | network byte order, and the codec stack Ironscale over UDP over IPv4 over Ethernet |
| `DeltaRepaint`, `Compositor`, `Textbox` (with `Grid`, `Screen`) | the repaint thread of the text display and its scrolling textbox |
| `Autobuf`, `BoundedBuffer`, `RwQueue` | the byte buffer, the byte pipe on it, and the object queue between threads |
| `CsvParser`, `Tokenizer`, `Framing` | CSV files, string splitting, length-prefixed messages on a socket |
| `ActionList` | comparison of OpenFlow action lists |

Objects that the program updates in place are classes with the same fields, its loops are loops, and
buffers it writes into are arrays. Each method is proved against a function of the old state, and the
results in the table below are about those functions.

**Threads.** `HalController.Hal` has one method for every stretch of code that runs between two
points where another thread can interfere; `HalProtocol` is the transition system made of these
steps, of clients, of the maintenance thread, of the two directions of the connection (each FIFO) and
of the switch. The switch is an environment bound by section 5.3.7 (Barrier Message) of the OpenFlow
Switch Specification 1.0.0 and nothing else: it may execute what it received in any order that does
not cross a barrier, and answer anything but a barrier with errors. A run is any sequence of enabled
steps, and the results hold in every reachable state. `BoundedBuffer` and `RwQueue` likewise have one
method per critical section, entered once its wait condition holds, and their results are about every
interleaving.

**Outside world.** Sockets, files and the terminal are byte sequences and arrays. What a `send` or
`recv` does is a list of events given to the method. The visiting order of a set of pointers or
strings is a parameter, and the contracts hold for every order.

## Where the code falls short of its purpose

In these places the code is modelled as it is, and the exact condition under which it does its job
is proved.

- A barrier reply completes every waiting transaction with a smaller xid, but xids are taken before
  transactions are enqueued. A completion is sound if and only if the transaction was enqueued ahead
  of the barrier (`HalProtocol.BarrierCompletionExact`); `HalProtocol.OvertakenTransactionFails` is a
  run in which a client hears "success" and the switch then rejects the command.
- Odd bytes at the end of TCP and ICMP data are added to the wrong half of their word
  (`InternetChecksum.ChecksumTcp`, `InternetChecksum.ChecksumIcmp`).
- `dscp` is written shifted by six bits and read back shifted by two; the bytes of a fragment offset
  are read in the opposite order; the identification that is read goes into a local variable
  (`UdpPacket.RoundTripExact`).
- A payload that overflows the 16-bit UDP length makes the serializer abort; one that overflows only
  the IP length is sent and rejected (`IronscalePacket.LayeredRoundTrip`).
- The delta writer drops the cell at which a run of one colour reaches the 2048-byte accumulator, and
  never sends it later (`DeltaRepaint.FlushedIsRenderExact`, `DeltaRepaint.DroppedCellStaysStale`).
- `prepend` aborts when it has to move the content back by at least its own size. Sizes are
  compared as `int`, so from 2^31 bytes on `prepend` without room in front, growing with zeros,
  `read_rear` and `read` abort too (`Autobuf.Autobuf.Prepend`, `Autobuf.Perform`). The comment on `grow_buffer` says that it leaves the contents alone;
  a smaller size cuts them off, and the model follows the code.
- The default -1 ("unlimited") of `rwqueue` lands in an unsigned field and means 4294967295
  (`RwQueue.StoredMax`).
- A bounded buffer that respects its maximum never reaches it: an exact request can be served, and an
  offer let in, if and only if it is smaller than the maximum (`BoundedBuffer.ServedExactly`,
  `BoundedBuffer.OffersAdmittedExactly`).
- Cells with commas, line ends or two adjacent quotes do not survive a CSV file, and neither does a
  row made of a single empty cell (`CsvParser.RoundTripExact`).
- With an empty separator in the set, `tokenize` returns if and only if the text is nothing but
  other separators (`Tokenizer.TerminationExact`).
- A backspace in the first cell of a textbox that has scrolled stays there although the text goes
  further up (`Textbox.ShowsThroughoutExactly`).
- An item too long for the reader stays in the stream and is taken for the next length
  (`Framing.OversizedItemDesynchronises`).
- Comparing action lists looks in one direction, which is right exactly for lists without duplicates
  (`ActionList.SymmetryExact`); vendor actions equal nothing, themselves included.

## Model

| member | source | states |
|---|---|---|
| `HalProtocol.InvKept` | controller/hal/hal.cpp:377-739 | every step of clients, send, receive, process and maintenance threads, connection and switch keeps the thirteen invariants: both FIFO pipelines, unique xids, the backlog, section 5.3.7 order, why each callback fired, what barriers drain |
| `HalProtocol.ReachableInv` | controller/hal/hal.cpp:377-739 | so every state of every run satisfies them |
| `HalProtocol.ExactlyOnePlace` | controller/hal/hal.cpp:386-395 | in every reachable state an acknowledged transaction is in exactly one of reserved, awaiting registration, waiting for its callback, completed |
| `HalProtocol.CallbacksFireOnceAndAgree` | controller/hal/hal.cpp:664-712 | no callback fires twice in any run, and its status flag agrees with the verdict a blocking callback derives from the reply |
| `HalProtocol.RepliesFindRegistrations` | controller/hal/hal.cpp:386-395 | registering before writing suffices: a reply anywhere on its way back answers a transaction already registered, which waits for its callback or had it |
| `HalProtocol.BarrierCompletionExact` | controller/hal/hal.cpp:668-694 | with no ordering hypothesis: a transaction completed by another barrier's reply was executed before that barrier if and only if it was enqueued ahead of it, and then the switch never reports an error for it |
| `HalProtocol.BarrierSoundness` | controller/hal/hal.cpp:668-694 | if clients enqueue in xid order, success reported by a barrier reply means executed before the barrier and no error message, in every run |
| `HalProtocol.OvertakenTransactionFails` | controller/hal/hal.cpp:674-688 | the ordering hypothesis is needed: a concrete run completes a command with success before it is sent, and the switch then rejects it |
| `HalProtocol.BarrierDrains` | controller/hal/hal.cpp:283-289 | no ordering hypothesis: everything waiting when a barrier's xid was reserved is completed once the barrier's reply is handled |
| `HalProtocol.MaintenanceBarrierFlushes` | controller/hal/hal.cpp:721-736 | when the maintenance thread's barrier request returns, every callback it saw waiting has been performed |
| `HalProtocol.LargerXidsSurvive` | controller/hal/hal.cpp:668-694 | handling a barrier reply keeps exactly the waiting transactions with larger xids, in their order |
| `HalProtocol.BarrierCutsEmissionsKept` | controller/hal/hal.cpp:454-471 | after a barrier reply the switch emits nothing more that answers a message received before the barrier |
| `HalProtocol.NoLateErrorsKept` | controller/hal/hal.cpp:664-694 | a transaction a barrier completed that was enqueued ahead of it never gets an error, whatever happens later |
| `HalProgress.CanComplete` | controller/hal/hal.cpp:377-739 | no stuck state: from every reachable state with an xid left for a barrier, some run performs the callback of any given acknowledged transaction, wherever it is |
| `HalProgress.BacklogCanDrain` | controller/hal/hal.cpp:283-289 | and some run performs the callbacks of everything that waits, by posting one barrier |
| `HalProgress.CanRegister` | controller/hal/hal.cpp:377-395 | an acknowledged transaction that is reserved or enqueued can get into the backlog |
| `HalController.BarrierSplitsBacklog` | controller/hal/hal.cpp:668-694 | a barrier reply divides the backlog without loss or duplication: larger xids stay, all others leave with one completion each, the barrier's own one carrying the reply |
| `HalController.SurvivorsKeepOrder` | controller/hal/hal.cpp:668-694 | what stays is a selection at increasing positions, still without duplicate xids |
| `HalController.DrainedOnce` | controller/hal/hal.cpp:668-694 | a drained backlog fires no xid twice |
| `HalController.MatchedReplySplitsBacklog` | controller/hal/hal.cpp:696-711 | any other reply takes out exactly the transaction with its xid, if any, and hands it the reply with the right status |
| `HalController.DrainedInOrder` | controller/hal/hal.cpp:668-694 | the drained callbacks fire in the order of the backlog |
| `HalController.MatchingReplyCompletes` | controller/hal/hal.cpp:454-711 | an echo or statistics reply completes the waiting transaction with its xid successfully, an error completes it with failure, each handing itself over, and nothing else changes |
| `HalController.StrayReplyIsDropped` | controller/hal/hal.cpp:696-711 | a reply nobody waits for changes nothing |
| `HalController.BarrierReplyCompletes` | controller/hal/hal.cpp:668-694 | the barrier itself gets its reply, smaller xids complete successfully without one |
| `HalController.OtherMessages` | controller/hal/hal.cpp:483-660 | an echo request queues an answer under its own xid without acknowledgement; every other message leaves backlog and queue alone |
| `HalController.ReserveAdvances` | controller/hal/hal_transaction.cpp:67-69 | the counter advances modulo 2^32 |
| `HalController.Hal.AssignXid` | controller/hal/hal_transaction.cpp:7-22 | the transaction gets the current xid, and the 32-bit counter moves on, wrapping around |
| `HalController.Hal.EnqueueTransaction` | controller/hal/hal.cpp:372-374 | the transaction joins the pending queue at its end; nothing else changes |
| `HalController.Hal.SendLoopDequeue` | controller/hal/hal.cpp:382-384 | the send loop takes the oldest pending transaction |
| `HalController.Hal.SendLoopRegister` | controller/hal/hal.cpp:386-392 | exactly acknowledged transactions join the backlog, before the write |
| `HalController.Hal.SendLoopWrite` | controller/hal/hal.cpp:394-401 | the transaction in hand is what reaches the wire |
| `HalController.Hal.RecvLoopEnqueue` | controller/hal/hal.cpp:415-427 | received messages queue up in order |
| `HalController.Hal.ProcessLoopDequeue` | controller/hal/hal.cpp:446-448 | the process loop takes the oldest message |
| `HalController.Hal.ProcessLoopHandle` | controller/hal/hal.cpp:451-712 | one pass of the process loop is the step the protocol model takes, including the answer to an echo request |
| `HalController.Hal.FireAllThrough` | controller/hal/hal.cpp:668-694 | the erasing loop over the backlog leaves the survivors and performs the drained callbacks, in list order |
| `HalController.Hal.FireMatching` | controller/hal/hal.cpp:696-711 | the erasing search removes the first match and performs one callback |
| `HalController.BlockingCallback.HalCallback` | controller/hal/hal_transaction.cpp:72-87 | the waiting caller is told success unless the reply is an error message; no reply counts as success |
| `ServiceCatalog.StuckIsLargest` | controller/hal/service_catalog.cpp:84-121 | a schedule that cannot be extended contains every schedule whatsoever |
| `ServiceCatalog.StuckSchedulesAgree` | controller/hal/service_catalog.cpp:84-121 | hence all such schedules bring up the same services |
| `ServiceCatalog.StuckDecidesOrderable` | controller/hal/service_catalog.cpp:84-121 | and all services can be ordered after their dependencies if and only if it covers them all |
| `ServiceCatalog.DependenciesComeFirst` | controller/hal/service_catalog.cpp:92-104 | every dependency of a service initialised is the type of one initialised before it |
| `ServiceCatalog.OutcomeIgnoresVisitingOrder` | controller/hal/service_catalog.cpp:70-122 | the returned value, and the set brought up when every `init2` succeeds, do not depend on the iteration order of the pointer set |
| `ServiceCatalog.Catalog.constructor` | controller/hal/service_catalog.cpp:8-15 | an empty catalogue |
| `ServiceCatalog.Catalog.RegisterService` | controller/hal/service_catalog.cpp:18-31 | one slot per type: the newcomer replaces the previous holder, and a failing `init` registers nothing |
| `ServiceCatalog.Catalog.UnregisterService` | controller/hal/service_catalog.cpp:50-61 | exactly the services of the type leave |
| `ServiceCatalog.Catalog.DeferredInitServices` | controller/hal/service_catalog.cpp:70-122 | terminates; `init2` calls run at most once each, after all dependencies; goes on until one fails or none is ready; true if and only if all services are orderable and succeed |
| `InternetChecksum.TwoFoldsSuffice` | common/std_packet.cpp:719-724 | two folds bring every 32-bit sum into 16 bits with its one's complement residue |
| `InternetChecksum.DeferredCarries` | common/std_packet.cpp:707-716 | summing in a wide accumulator and folding at the end is the end-around-carry sum of RFC 1071 |
| `InternetChecksum.ByteOrderIndependence` | common/std_packet.cpp:1359-1381 | summing little-endian words gives the byte-swapped big-endian sum (section 2 of RFC 1071) |
| `InternetChecksum.ChecksummedSumsToOnes` | common/std_packet.cpp:697-727 | data carrying its RFC 1071 checksum sums to 0xffff |
| `InternetChecksum.CarriedChecksumVerifies` | common/std_packet.cpp:908-953 | also with a pseudo header in front and a payload behind |
| `InternetChecksum.CoveredIgnoresOldChecksum` | common/std_packet.cpp:922-924 | the old checksum field has no influence |
| `InternetChecksum.OnesComplement` | common/std_packet.cpp:719-724 | the closing lines compute the complement of the residue, without overflow |
| `InternetChecksum.AccumulateWords` | common/std_packet.cpp:926-937 | the loop adds the big-endian words without 32-bit overflow |
| `InternetChecksum.ChecksumIp` | common/std_packet.cpp:697-727 | the result is the RFC 1071 checksum of the header with its field blank, and with it the header verifies |
| `InternetChecksum.ChecksumTcp` | common/std_packet.cpp:908-953 | the RFC 793 checksum, and a segment that verifies at the receiver, if and only if the payload is even or its odd last byte is zero |
| `InternetChecksum.TcpLayout` | common/std_packet.cpp:915-924 | what is summed, byte by byte: addresses, zero, protocol 6, length, header around the checksum in bytes 16 and 17, payload |
| `InternetChecksum.TcpVerifies` | common/std_packet.cpp:908-953 | what a receiver sums is all ones exactly without an odd nonzero last byte |
| `InternetChecksum.TcpTail` | common/std_packet.cpp:939-942 | the odd byte is added to the wrong half of its word, which changes the result unless it is zero |
| `InternetChecksum.AccumulateLittleEndian` | common/std_packet.cpp:1364-1366 | the loop adds the little-endian words without overflow |
| `InternetChecksum.ChecksumIcmp` | common/std_packet.cpp:1359-1381 | the byte-swapped result is the RFC 1071 checksum if and only if the message is even or its odd last byte is zero |
| `InternetChecksum.IcmpTail` | common/std_packet.cpp:1368-1371 | the odd byte is added to the wrong half of its word here too |
| `InternetChecksum.StoreIcmpChecksum` | common/std_packet.cpp:1320-1322 | bytes 2 and 3, and no others, become the network-order checksum under that condition, and every even message verifies |
| `Bytes.BigEndian16` | common/common_utils.cpp:1126-1151 | both bytes as numbers: the most significant one first |
| `Bytes.BigEndian32` | common/common_utils.cpp:1135-1158 | all four bytes as numbers, for packing and unpacking |
| `Bytes.Unpack16OfPack16` | common/common_utils.cpp:1126-1151 | reading back a packed 16-bit value |
| `Bytes.Unpack32OfPack32` | common/common_utils.cpp:1135-1158 | reading back a packed 32-bit value |
| `UdpPacket.RoundTripExact` | common/std_packet.cpp:592-695 | a frame survives encoding and decoding if and only if dscp is 0, ecn below 4, both offset bytes equal and below 32, the identification the default one, the protocol known, the payload at most 65507 bytes, the tag in range |
| `UdpPacket.FrameLinkLayout` | common/std_packet.cpp:79-135 | the link header of every encoded frame at absolute offsets: addresses, VLAN marker and tag bits, ethertype |
| `UdpPacket.FrameDatagramLayout` | common/std_packet.cpp:592-626 | every byte of the IP and UDP headers at absolute offsets, the identification and the zero UDP checksum included, and the header verifies |
| `UdpPacket.EncodesExactly` | common/std_packet.cpp:999-1003 | the serializer aborts exactly on payloads above 65527 bytes |
| `UdpPacket.AcceptsExactly` | common/std_packet.cpp:138-235 | for every input, the exact condition on its bytes under which the receiver accepts it |
| `UdpPacket.FieldsRead` | common/std_packet.cpp:629-695 | for every accepted input, which bytes each field is made of |
| `UdpPacket.DecodeEncoded` | common/std_packet.cpp:999-1047 | what a receiver gets from every encodable frame, field by field, and when it rejects it |
| `UdpPacket.EncodedIsReadable` | common/std_packet.cpp:138-235 | an encoded frame never makes the receiver read past its end, and is classified by its protocol |
| `UdpPacket.EthernetParses` | common/std_packet.cpp:79-235 | the Ethernet layer, tagged or not, gives back addresses, tag and datagram |
| `UdpPacket.IpHeaderParses` | common/std_packet.cpp:592-695 | every IP header field is found where it was written |
| `UdpPacket.DatagramDecodes` | common/std_packet.cpp:629-695 | the IP and UDP layers give back ports and payload, and the header fields as far as they survive |
| `UdpPacket.OversizedDatagramFails` | common/std_packet.cpp:592-626 | a datagram above 65535 bytes is written with a truncated length and rejected |
| `UdpPacket.DscpSurvives` | common/std_packet.cpp:655 | encode and decode disagree on every dscp but 0 |
| `UdpPacket.OffsetSurvives` | common/std_packet.cpp:680 | a fragment offset survives if and only if its two bytes agree and fit |
| `UdpPacket.IpHeaderVerifies` | common/std_packet.cpp:616-617 | every header written verifies at the receiver |
| `UdpPacket.Packet.constructor` | common/std_packet.cpp:456-468 | the default fields; the ports start out undefined |
| `UdpPacket.Packet.Serialize` | common/std_packet.cpp:999-1017 | the bytes of the frame, or the abort when the 16-bit length overflows |
| `UdpPacket.Packet.WriteEthernetHeader` | common/std_packet.cpp:79-135 | writes the tagged or untagged header and returns its size |
| `UdpPacket.Packet.WriteIpHeader` | common/std_packet.cpp:592-626 | writes header and checksum, leaving what precedes it |
| `UdpPacket.Packet.WriteUdp` | common/std_packet.cpp:1001-1014 | writes UDP header and payload, leaving what precedes it |
| `UdpPacket.Packet.Deserialize` | common/std_packet.cpp:138-235 | the fields of the decoded frame, and false exactly when decoding fails |
| `UdpPacket.Packet.DeserializeDatagram` | common/std_packet.cpp:1020-1047 | the length checks of the UDP layer |
| `UdpPacket.Packet.DeserializeIpHeader` | common/std_packet.cpp:629-695 | the checks and fields of the IP layer |
| `IronscalePacket.LayeredRoundTrip` | common/ironscale_packet.cpp:33-77 | type, request id, both addresses and payload come back through UDP, IPv4 and Ethernet if and only if the payload has at most 65489 bytes; beyond that the frame is aborted or rejected, never misread |
| `IronscalePacket.Codes` | common/ironscale_packet.h:16-17 | the five numbers of the service types, in both directions |
| `IronscalePacket.BodyLayout` | common/ironscale_packet.cpp:41-47 | the eighteen header bytes, the request id most significant byte first, and the payload |
| `IronscalePacket.CarrierLayout` | common/ironscale_packet.cpp:33-50 | the encoded frame: masked source address, UDP between ports 10000 from and to 0.0.0.0, the body from byte 42 on |
| `IronscalePacket.IronscaleExactly` | common/ironscale_packet.cpp:53-77 | for every buffer, when it is an Ironscale packet and where each field comes from |
| `IronscalePacket.BodyParses` | common/ironscale_packet.cpp:42-47 | the Ironscale header and payload parse back |
| `IronscalePacket.KindOf` | common/ironscale_packet.cpp:79-86 | codes up to 4 name their service type, all others are unknown |
| `IronscalePacket.Packet.Serialize` | common/ironscale_packet.cpp:33-50 | builds the carrier packet of the fields and encodes it |
| `IronscalePacket.Packet.Deserialize` | common/ironscale_packet.cpp:53-77 | true exactly for Ironscale packets; a rejected buffer leaves the fields as they were |
| `DeltaRepaint.FlushedIsRenderExact` | common/gui.cpp:2252-2364 | delta repaint equals full repaint if and only if no 2048 consecutive cells change to one colour in the frame |
| `DeltaRepaint.FramesRefineFullRepaint` | common/gui.cpp:2187-2413 | on a screen of any size, every sequence of frames with cursors in which none changes a long run against the one before leaves the terminal showing exactly the last one |
| `DeltaRepaint.LongRunBreaksRefinement` | common/gui.cpp:2187-2413 | and the first frame with a long run and no cursor leaves it showing something else |
| `DeltaRepaint.SmallScreensRefineFullRepaint` | common/gui.cpp:2187-2413 | below 2048 cells that holds for every sequence of frames |
| `DeltaRepaint.FrameKeepsTerminalInStep` | common/gui.cpp:2366-2413 | terminal and `output_buffer` agree again after a frame with its cursor; with a long run and no cursor they do not |
| `DeltaRepaint.SmallScreensAreExact` | common/gui.cpp:2252-2364 | no frame on a screen below 2048 cells loses a cell |
| `DeltaRepaint.LargeScreensLoseCells` | common/gui.cpp:2298-2317 | on every larger screen some frame does |
| `DeltaRepaint.DroppedCellStaysStale` | common/gui.cpp:2300-2317 | and later frames with the same content do not repair it |
| `DeltaRepaint.FlushDelta` | common/gui.cpp:2252-2364 | the loop over the accumulator writes exactly the changed cells that are not dropped |
| `DeltaRepaint.ConsiderCell` | common/gui.cpp:2258-2347 | each iteration keeps: flushed part final, collected run of one colour in the accumulator, rest untouched |
| `DeltaRepaint.CursorPlace` | common/gui.cpp:2393-2396 | a cursor on the screen stays put, one beyond an edge moves onto it |
| `DeltaRepaint.CursorShown` | common/gui.cpp:2398-2407 | its cell keeps the character and gets colour 0xaf, no other cell changes |
| `DeltaRepaint.RepaintFrame` | common/gui.cpp:2252-2413 | new terminal and new `output_buffer` after one round, cursor wrap check included |
| `DeltaRepaint.MovePrint` | common/gui.cpp:2276 | printing a run changes its cells and no others |
| `Compositor.CompositionShowsTop` | common/gui.cpp:2199-2250 | every screen cell holds the content, at its relative position, of the highest visible panel whose rectangle contains it, the later one on ties, or the background when none does |
| `Compositor.SortedPaintingShowsTop` | common/gui.cpp:2199-2205 | sorting by z and painting in order puts that panel last |
| `Compositor.SortAscends` | common/gui.cpp:2733-2743 | the panel list becomes ascending in z and keeps its members |
| `Compositor.SortPermutes` | common/gui.cpp:2733-2743 | with their multiplicities |
| `Compositor.UncoveredShowsNothing` | common/gui.cpp:2206-2214 | where nothing covers, nothing is painted |
| `Compositor.WrapIsHarmless` | common/gui.cpp:2233-2240 | the unsigned wrap-around of negative origins never brings a cell onto the screen, or moves one that is on it |
| `Compositor.PaintPanel` | common/gui.cpp:2230-2246 | the clipped loop paints the panel's cells at their places and no others |
| `Compositor.Compose` | common/gui.cpp:2199-2250 | the copy phase leaves what painting in depth order leaves |
| `Textbox.BoxShowsEndOfPage` | common/gui.cpp:244-391 | after any text in which no backspace has to leave the box, the box shows exactly the last rows of the text laid out, with overwriting, on an unbounded page, and its cursor sits there |
| `Textbox.ShowsThroughoutExactly` | common/gui.cpp:244-391 | the box shows the page after every byte of a text if and only if no backspace meets the first cell of a box that has scrolled |
| `Textbox.GlyphsStay` | common/gui.cpp:355-382 | on that page a glyph stays where the wrapping put it until another one is written there |
| `Textbox.NothingOverwritten` | common/gui.cpp:312-383 | which never happens without backspaces |
| `Textbox.OnlyGlyphs` | common/gui.cpp:355-382 | and everything else is blank, in the cleared colour where the text did not scroll |
| `Textbox.OpenedColour` | common/gui.cpp:244-276 | a row scrolled in has the colour of the byte that opened it |
| `Textbox.ShownByte` | common/gui.cpp:343-353 | printable bytes are shown as themselves, 196 as a minus sign, all others as blanks |
| `Textbox.CursorMoves` | common/gui.cpp:312-341 | line breaks and backspaces move the cursor as stated, byte by byte |
| `Textbox.LineWraps` | common/gui.cpp:355-382 | glyph number k of a line goes into column k modulo the width, k divided by the width rows down |
| `Textbox.ScrolledCell` | common/gui.cpp:244-276 | scrolling by n rows: every cell comes from n rows below, or is blank |
| `Textbox.TypedAppend` | common/gui.cpp:291-391 | two writes are one write of the joined text |
| `Textbox.BackspaceOverwrites` | common/gui.cpp:325-340 | after a backspace the next glyph overwrites |
| `Textbox.BackspaceShows` | common/gui.cpp:325-340 | a backspace in the box is one on the page unless the box has scrolled and the cursor is in its first cell |
| `Textbox.TextPanel.ClearNoCommit` | common/gui.cpp:225-237 | blanks in the current colour, cursor at the origin |
| `Textbox.TextPanel.ScrollRenderBuffer` | common/gui.cpp:244-276 | rows move up by any number and blanks come in below |
| `Textbox.TextPanel.Write` | common/gui.cpp:291-391 | types the message byte by byte, cut at 1023 bytes |
| `Textbox.TextPanel.WriteByte` | common/gui.cpp:312-383 | line break, backspace, wrap and glyph |
| `Textbox.TextPanel.NextLine` | common/gui.cpp:314-323 | next row, scrolling when there is none |
| `Autobuf.PerformAll` | common/autobuf.cpp:328-442 | under every sequence of operations the buffer is the byte sequence they describe; it can stop early only at an operation whose bounds check may abort, and never passes one that must |
| `Autobuf.Perform` | common/autobuf.cpp:328-442 | each operation has the effect it has on a plain sequence, or aborts: a `prepend` not shorter than the content or onto 2^31 bytes, or growing with zeros to 2^31 bytes |
| `Autobuf.Autobuf.Alloc` | common/autobuf.cpp:699-745 | realigns, and reallocates to whole 4096-byte pages exactly when the buffer is too small, without changing the content |
| `Autobuf.MutableOffsetExactly` | common/autobuf.cpp:293-325 | the bounds checks with their `int` casts, as conditions on the sizes |
| `Autobuf.Autobuf.SetContent` | common/autobuf.cpp:107-128 | replaces the content |
| `Autobuf.Autobuf.Append` | common/autobuf.cpp:406-417 | content followed by the source |
| `Autobuf.Autobuf.Prepend` | common/autobuf.cpp:420-442 | source followed by content, succeeding if and only if there is room in front, or the source is empty, or it is shorter than the content and that is below 2^31 bytes |
| `Autobuf.Autobuf.Concatenate` | common/autobuf.cpp:349-395 | content followed by the other's, also when it is the same buffer |
| `Autobuf.Autobuf.TrimFront` | common/autobuf.cpp:328-336 | drops from the front, all when asked for more |
| `Autobuf.Autobuf.TrimRear` | common/autobuf.cpp:339-346 | drops from the rear, all when asked for more |
| `Autobuf.Autobuf.Clear` | common/autobuf.cpp:89-96 | empty content, memory kept |
| `Autobuf.Autobuf.CreateEmptyBuffer` | common/autobuf.cpp:573-579 | the size asked for; zeroed if wanted, otherwise the old prefix remains |
| `Autobuf.Autobuf.GrowBuffer` | common/autobuf.cpp:582-589 | keeps the common prefix and may also shrink; zeroing new bytes aborts exactly from 2^31 bytes on |
| `Autobuf.Autobuf.ReadFront` | common/autobuf.cpp:255-262 | copies the front, source unchanged, or aborts when asked for more than there is |
| `Autobuf.Autobuf.ReadRear` | common/autobuf.cpp:265-273 | copies the rear, source unchanged; aborts exactly on a range error or from 2^31 bytes of content on |
| `Autobuf.Autobuf.Read` | common/autobuf.cpp:276-284 | copies the middle, source unchanged; aborts exactly on a range error or from offset 2^31 on |
| `BoundedBuffer.StreamConservation` | common/bounded_buffer.cpp:32-84 | for every interleaving: bytes delivered followed by bytes stored are the enqueued buffers in lock order |
| `BoundedBuffer.SizeStaysBelowMaximum` | common/bounded_buffer.cpp:32-42 | with `enqueue` only and a fixed positive maximum the size stays strictly below it |
| `BoundedBuffer.ServedExactly` | common/bounded_buffer.cpp:71-84 | some such run serves a request for an exact size if and only if the size is below the maximum |
| `BoundedBuffer.OffersAdmittedExactly` | common/bounded_buffer.cpp:32-42 | some such run lets an offer in, and its bytes fit into 32 bits, if and only if it is below the maximum |
| `BoundedBuffer.OversizedRequestsStarve` | common/bounded_buffer.cpp:32-84 | a request or an offer of the maximum or more waits in every state, unless the 32-bit sum of the sizes wraps around |
| `BoundedBuffer.UnlimitedAdmits` | common/bounded_buffer.cpp:35 | without a maximum every offer is let in |
| `BoundedBuffer.AdmittedExactly` | common/bounded_buffer.cpp:35 | below the maximum, an offer is let in if and only if the result stays below it or the 32-bit sum wraps around |
| `BoundedBuffer.Perform` | common/bounded_buffer.cpp:32-108 | the object performs exactly the steps of that model, and hands consumers what it delivers |
| `BoundedBuffer.BoundedBuffer.Enqueue` | common/bounded_buffer.cpp:32-42 | appends the whole buffer |
| `BoundedBuffer.BoundedBuffer.ForceEnqueue` | common/bounded_buffer.cpp:45-51 | appends whatever the limit |
| `BoundedBuffer.BoundedBuffer.Dequeue` | common/bounded_buffer.cpp:54-68 | delivers the front, as much as there is up to the limit |
| `BoundedBuffer.BoundedBuffer.DequeueExact` | common/bounded_buffer.cpp:71-84 | delivers exactly the front asked for |
| `BoundedBuffer.BoundedBuffer.SetMax` | common/bounded_buffer.cpp:100-108 | content untouched |
| `RwQueue.FifoConservation` | common/rwqueue.h:41-77 | objects delivered followed by objects stored are the objects put in, in lock order, for every interleaving |
| `RwQueue.LimitHolds` | common/rwqueue.h:53-62 | the queue never exceeds its stored limit |
| `RwQueue.StoredMax` | common/rwqueue.h:96-101 | non-negative limits are kept, negative ones become 4294967295 |
| `RwQueue.PutWaitsExactly` | common/rwqueue.h:53-62 | a producer waits exactly while the queue is full |
| `RwQueue.Perform` | common/rwqueue.h:41-101 | the object performs exactly the steps of that model, and hands out what it delivers |
| `RwQueue.RwQueue.Enqueue` | common/rwqueue.h:53-62 | joins at the end |
| `RwQueue.RwQueue.Dequeue` | common/rwqueue.h:65-77 | leaves from the front |
| `RwQueue.RwQueue.SetMax` | common/rwqueue.h:96-101 | the limit is what 32 unsigned bits keep of the argument |
| `RwQueue.RwQueue.Clear` | common/rwqueue.h:28-38 | empties the queue and resets the limit |
| `CsvParser.RoundTripExact` | common/csv_parser.cpp:8-160 | a table is loaded back as saved if and only if its rows have one nonzero width, no row is a single empty cell, and no cell holds a comma, a line end or two adjacent quotes |
| `CsvParser.StandardReaderAgrees` | common/csv_parser.cpp:128-148 | every saved cell is the RFC 4180 field of that cell: each of its quotes written twice, two around it |
| `CsvParser.CellsAreSeparated` | common/csv_parser.cpp:150-152 | by commas |
| `CsvParser.RowsAreLines` | common/csv_parser.cpp:122-156 | every row is a line of its own ended by CR LF |
| `CsvParser.SanitizedExactly` | common/csv_parser.cpp:73-98 | a word fails exactly with a quote at one end only; quotes at both ends come off |
| `CsvParser.OtherWidthStops` | common/csv_parser.cpp:66-71 | a row of another width ends the loading, whatever follows it |
| `CsvParser.UnmatchedQuotesFail` | common/csv_parser.cpp:80-88 | one unmatched word makes the whole file fail |
| `CsvParser.AnyLineEnd` | common/csv_parser.cpp:30-37 | CR alone and LF alone end a line too |
| `CsvParser.LastLine` | common/csv_parser.cpp:30-63 | and so does the end of the file |
| `CsvParser.LoadedSaved` | common/csv_parser.cpp:8-160 | what comes back from any table of plain cells: quote runs squeezed, single empty cells gone |
| `CsvParser.LoadedShape` | common/csv_parser.cpp:56-71 | whatever is loaded from whatever file has rows of one nonzero width and plain cells |
| `CsvParser.SavedCellLoads` | common/csv_parser.cpp:73-98 | no saved cell is ever rejected as unmatched |
| `CsvParser.SqueezedFixpoint` | common/csv_parser.cpp:93-95 | the quote loop changes a word if and only if it has adjacent quotes |
| `CsvParser.EraseKeepsSqueezed` | common/csv_parser.cpp:93-95 | each erasure of the loop leaves its final result the same |
| `CsvParser.CsvParser.Save` | common/csv_parser.cpp:114-160 | the file written |
| `CsvParser.CsvParser.SaveCell` | common/csv_parser.cpp:130-148 | quotes doubled, and quotes around if there were any |
| `CsvParser.CsvParser.Load` | common/csv_parser.cpp:8-111 | rows appended to the contents; unmatched quotes lose everything; a row of another width ends the loading |
| `CsvParser.CsvParser.ReadLine` | common/csv_parser.cpp:30-37 | up to CR or LF, whichever comes first |
| `CsvParser.CsvParser.SplitLine` | common/csv_parser.cpp:39-54 | the words between commas, the last one included |
| `CsvParser.CsvParser.SanitizeWord` | common/csv_parser.cpp:73-98 | outer quotes off, runs squeezed, unmatched ones rejected |
| `Tokenizer.Tokenize` | common/string_utils.cpp:24-68 | on exactly the inputs on which the loop ends, for every order of the set, gives the tokens of the one cut of the text into nonempty separator-free tokens and longest non-empty separators |
| `Tokenizer.LongerSeparatorWins` | common/string_utils.cpp:50-54 | a worked example: where one separator begins another, the longer one is skipped |
| `Tokenizer.CutIsUnique` | common/string_utils.cpp:24-68 | there is only one such cut |
| `Tokenizer.PiecesRebuildText` | common/string_utils.cpp:57-64 | tokens and skipped separators rebuild the input |
| `Tokenizer.PiecesFit` | common/string_utils.cpp:33-65 | each piece obeys the rule where it starts |
| `Tokenizer.NextSeparator` | common/string_utils.cpp:35-55 | the earliest occurrence of any separator, and the longest one there |
| `Tokenizer.TerminationExact` | common/string_utils.cpp:33-65 | the call terminates if and only if the empty separator is absent or the text is nothing but non-empty separators, the longest one taken at each place |
| `Tokenizer.ProgressExact` | common/string_utils.cpp:33-65 | a round advances if and only if the empty separator is absent or another one occurs right here |
| `Framing.FramingExact` | common/common_utils.cpp:304-367 | a message sequence is recovered exactly and in order if and only if each message fits the reader's buffer |
| `Framing.FrameLayout` | common/common_utils.cpp:444-452 | the four length bytes, most significant first, and the message |
| `Framing.FramesDecodable` | common/common_utils.cpp:442-506 | different sequences have different wire images |
| `Framing.OversizedItemDesynchronises` | common/common_utils.cpp:335-336 | a rejected item leaves its body in the stream, where it is read as the next length |
| `Framing.WriteMessages` | common/common_utils.cpp:442-506 | a sender whose writes finish has put exactly the frames on the wire, and it stops only where the benign calls do not suffice |
| `Framing.ReadMessages` | common/common_utils.cpp:304-367 | a reader gets exactly the messages in order, whatever the chunks and interruptions, and stops short only where the benign calls do not suffice |
| `Framing.Connection.SendAll` | common/common_utils.cpp:452-473 | partial sends add up to the data; only a failed, closed or empty send breaks it, and as many moving sends as bytes complete it |
| `Framing.Connection.ReceiveExactly` | common/common_utils.cpp:314-331 | partial receives take exactly the bytes wanted and no more, with the same guarantees |
| `Framing.Connection.WriteDataItem` | common/common_utils.cpp:442-506 | the peer always sees a prefix of the frame; an empty item is refused; enough benign sends get it all across |
| `Framing.Connection.ReadDataItem` | common/common_utils.cpp:304-367 | the item depends on the stream only, not on how it was split; enough benign receives get it |
| `ActionList.EqualIsSameContents` | controller/ironstack_types/openflow_action_list.cpp:30-52 | with a duplicate-free first list, the one-directional test is equality of contents (and needs no unknown or vendor action) |
| `ActionList.SymmetryExact` | controller/ironstack_types/openflow_action_list.cpp:30-52 | the test is symmetric from a list if and only if the list is duplicate-free or holds an incomparable action |
| `ActionList.UnequalBack` | controller/ironstack_types/openflow_action_list.cpp:30-52 | a list of comparable actions with a duplicate equals one with a vendor action that does not equal it back |
| `ActionList.EqualIsSymmetric` | controller/ironstack_types/openflow_action_list.cpp:30-52 | symmetric for a duplicate-free list, and the other list is then duplicate-free too |
| `ActionList.EqualIsTransitive` | controller/ironstack_types/openflow_action_list.cpp:30-52 | transitive for all lists |
| `ActionList.EqualIsReflexiveExactly` | controller/ironstack_types/openflow_action_list.cpp:30-52 | reflexive exactly without unknown and vendor actions |
| `ActionList.EqualMeansIncluded` | controller/ironstack_types/openflow_action_list.cpp:30-52 | the nested loops test size and inclusion |
| `ActionList.IncludedIsPermutation` | controller/ironstack_types/openflow_action_list.cpp:30-52 | the pigeonhole step |
| `ActionList.SameMeansEqual` | controller/openflow_types/of_action.cpp:5-47 | action comparison is equality except that unknown and vendor actions equal nothing |
| `ActionList.OpenflowActionList.Equals` | controller/ironstack_types/openflow_action_list.cpp:30-52 | the loops with the `found` flag decide that test |
| `ActionList.OpenflowActionList.AddAction` | controller/ironstack_types/openflow_action_list.cpp:292-303 | appends unless present, which keeps the list duplicate-free |

## Left out

Weaker or narrower than the code:

- HalProtocol.InvKept: the steps that reserve an xid require that the 32-bit counter does not wrap around; after that xids would repeat and comparing them would mean nothing.
- HalProtocol.ExactlyOnePlace: the protocol assumes a callback on every acknowledged transaction, one enqueue per transaction, and that only echo answers are sent with an xid not taken from the counter (`set_request_and_serialize` would allow a client to choose one).
- HalProtocol.RepliesFindRegistrations: a failed socket write ends the send loop; in the model the loop then just takes no further step, and HalProgress.CanComplete only says what some run does, not what every run does.
- HalProtocol.BarrierSoundness: the ordering of enqueues is a hypothesis, because the code does not enforce it; the exact condition without it is HalProtocol.BarrierCompletionExact.
- UdpPacket.Packet.Serialize: covers version 4, header length 5, no IP options and no explicitly set ethertype; the UDP checksum is always 0, as in the code.
- UdpPacket.Packet.Deserialize: requires that a frame the Ethernet layer takes for ARP or IPv6 is long enough for an IP header, which the code reads without a check; nothing is promised about the fields after a rejection.
- InternetChecksum.ChecksumTcp: takes a header and at most 65515 bytes of payload; above that the 16-bit length field cannot hold the size.
- Textbox.TextPanel.Write: takes the formatted text; `printf` formatting, the commit flag and the intermediate buffer are not modelled.
- Compositor.Compose: the library's `list::sort` appears as the stable insertion sort that fixes its result; the background has the size of the screen; locks are not modelled.
- DeltaRepaint.RepaintFrame: the terminal is an array of cells addressed by linear offset; how a terminal wraps long output or shows control characters is not modelled, and neither are negative cursor positions.
- Autobuf.Autobuf.Alloc: owned memory that never runs out, and sizes of at most 4294963200 bytes, whose rounding to pages still fits 32 bits; shared and read-only buffers, `shrink`, and loading and saving files are not modelled.
- Autobuf.Autobuf.Read: takes an offset and a length whose sum fits 32 bits; a sum that wraps around is not modelled.
- CsvParser.CsvParser.Load: opening files and failing to open them is not modelled; lines, words and rows are counted without bound, where the code keeps their sizes in `int` and so supports at most 2147483647.
- CsvParser.CsvParser.Save: cells, rows and tables of any size, where the code counts in `int`.
- BoundedBuffer.BoundedBuffer.Enqueue: takes at most 4294963200 bytes in all, and BoundedBuffer.StreamConservation is about runs whose stored bytes fit 32 bits; what happens after an offer whose sum wraps around was let in (BoundedBuffer.AdmittedExactly) is not modelled. Waiting and waking are not modelled; `dequeue` never wakes a blocked producer, so no progress is promised.
- RwQueue.RwQueue.Dequeue: the variant with a timeout is not modelled.

Not modelled at all:

- start-up and shutdown of the HAL, and the replies of the switch handled for particular services;
- the codecs for TCP, ICMP, ARP, IPv6 and DHCP packets beyond their checksums, and VLAN tag editing;
- `serialize` and `from_string` of action lists (the latter can create duplicates);
- `service_catalog::unregister_service` by pointer, `cu_read_data_item_auto_alloc`, key/value parsing, CSV accessors;
- code whose two halves disagree, so that no round trip can be stated: `autobuf_packer`, `kv_store::deserialize`, `rate_meter`, `openflow_flow_rate`;
- flow and CAM tables, menus, VLAN port sets and object pools.

# UnifiedBus, modelled and verified in Dafny

UnifiedBus is an interconnect for nodes that read and write each other's memory. The repository emulates
it twice. The Python simulator runs a switch daemon to which guests connect over byte streams; the C stack
puts a device model ("silicon"), a driver and two user libraries in one process. This project models both
and proves what they are for: a write is stored and read back, a reply belongs to its request, a replayed
packet has no effect, segments do not run into each other, no traffic goes uncounted.

`dafny verify dfyconfig.toml` verifies everything. Functions and datatypes specify; classes and methods
follow the code where it updates objects, arrays and buffers in place, and are proved equal to the
functions; lemmas state what holds over all inputs, runs and interleavings. What a function computes is also
stated without it: bytes bit by bit, requests by opcode number, tables and answers by the fields of the packets.

| file | models |
|---|---|
| Bytes, PyInt, Arith | bytes and big-endian words, Python's integers and slices, remainders |
| Port, Crc32, Reassembly | frames, their checksum, and the receive loops over arbitrary chunks |
| ReplayWindow, Cip | the anti-replay window and the CIP engine |
| Router, Fabric, FabricSwitch | the switch table, the packet handler as a function, and the switch object |
| FabricTable, FabricLog, FabricReplies, Atomics | whole runs of the fabric: switch table, memory, replies, atomic operations |
| Device, Network, Replica | a guest, the network of guests and fabric, and the agreement of memory copies |
| Silicon, SiliconThreads, SiliconTelemetry | device nodes, concurrent work requests, traffic counters |
| Driver, Aperture | the driver, and its flat memory against private arrays |
| Urma, Obmm | the two user libraries |
| Ring, RingRun | the all-reduce schedule, and what its transfers leave in memory |

How the models meet the code:

- Integers are unbounded; every width that matters is written out as a remainder. The C model has an
  outcome of its own for accesses outside a table, the memory array or a host buffer, where C promises
  nothing; the main results prove it absent.
- In the simulator a handler runs from one `await` to the next without interruption, so a packet's effect
  is one step; its answer is written later, and other steps may come between. Connections are FIFO, with one
  connection per node id. Every list of actions is a run: an action that is not enabled does nothing.
- In the C backend a thread's call is cut at its lock sections, and the read of `link_up` is a step of its
  own.
- SHA-256 and HMAC are parameters of which only the output length is known. The JSON functions are an
  assumed inverse pair that never produces an empty text.

What turned out to differ from the documentation or the obvious expectation, each with a lemma:

- `decrypt_and_verify` is documented as tag first, window second; the code moves the window first
  (`Cip.AdmissionConsumesNumber`), so also a packet with a wrong tag makes older numbers stale
  (`FabricLog.StaleIff`). The "64-bit window bitmap" grows without bound
  (`ReplayWindow.BitmapExceedsWindow`, `ReplayWindow.BitmapFitsIff`) but soundly so
  (`ReplayWindow.BitmapExact`, `ReplayWindow.HighBitsNeverConsulted`). The window outlives the connection, so a
  guest that restarts from sequence number 1 can be refused (`FabricLog.WindowSurvivesDetach`).
- A write past the 64 MB of a node is acknowledged and lost (`FabricReplies.AckedWriteCanBeLost`); a read of
  negative length can return data, also from outside its segment (`FabricLog.ReadLengthExact`,
  `FabricLog.ReadInsideSegmentIff`, `FabricLog.ReadEscapesSegment`).
- A forwarded packet with a response opcode is mistaken for a reply, and can replace a genuine one (`Network.ForwardedResponseMistaken`,
  `Network.StrayReplyInRun`).
- Guests do not mirror MEM_WRITE, URMA_WRITE_IMM, encrypted writes, atomic operations and a repeated
  registration; each keeps the copies in agreement only under the exact condition of
  `Replica.WriteKeepsAgreementIff`, `Replica.AtomicKeepsAgreementIff` or
  `Replica.ReRegistrationKeepsAgreementIff`.
- Pools outlive their segments and share their numbers (`Router.PoolReachableIff`,
  `Router.PoolOutlivesSegment`).
- The checks of the C backend do not notice any of three 64-bit wraps: of the end in the segment, of the
  address, and of the end of the address (`Silicon.InsideSegmentIff`, `Silicon.InsideMemoryIff`,
  `Silicon.UndefinedIff`; inputs in `Silicon.WrapReachesNeighbour`, `Silicon.LongSegmentReachesBelow`,
  `Driver.HugeSegmentReachesBelow`, `Silicon.WrapLeavesMemory`). Segments longer than the 1 MB stride alias
  (`Aperture.LongSegmentsAlias`).
- A request racing with an unregistration reports an error code of neither serial order
  (`SiliconThreads.RaceChangesErrorCode`, exactly: `SiliconThreads.LockExactIff`), and a segment registered on
  an offline node reopens it to requests already under way (`SiliconThreads.OfflineRegistrationIsNotSerial`,
  exactly: `SiliconThreads.LinearisesIff`).
- Segment ids from 256 on are reported as registered but are not (`Driver.RegisteredIff`), and ids above 64 lie
  beyond the aperture (`Aperture.AccessMatches`).
- The ring demonstrator reports a finished all-reduce, but sends from host tensors that no transfer writes: in
  the end each rank's segment holds its predecessor's tensor and no data has gone further
  (`RingRun.RingAllReduce`).

## Model

| member | source | states |
|---|---|---|
| Port.UnpackOfPackHeader | unifiedbus-simulator/daemon/port.py:195-218 | struct.unpack of the 44-byte header gives back every field struct.pack was given, for all values the format can hold |
| Port.NibblesBack | unifiedbus-simulator/daemon/port.py:190-236 | the flags and lane nibbles packed into one byte come apart again; only the high nibble of the flags and the low nibble of the lane travel |
| Port.ParseOfFrame | unifiedbus-simulator/daemon/port.py:184-250 | a serialised packet followed by any bytes parses to that packet, with its flags reduced to their high nibble, and consumes exactly the frame |
| Port.RoundTripIff | unifiedbus-simulator/daemon/port.py:184-250 | the round trip is exact if and only if the flags lie in the high nibble and the lane in four bits |
| Port.FlitsCoverFrame | unifiedbus-simulator/daemon/port.py:175-182 | flit_count flits of 64 bytes cover the serialised frame and one fewer would not |
| Port.VerdictStable | unifiedbus-simulator/daemon/port.py:212-250 | a verdict other than "need more bytes" does not change when more bytes arrive |
| Port.PrefixNeedsMore | unifiedbus-simulator/daemon/port.py:213-225 | every strict prefix of a frame asks for more bytes |
| Port.ParsedInRange | unifiedbus-simulator/daemon/port.py:216-250 | every parsed packet carries values its header fields can hold |
| Port.AlteredBodyRejected | unifiedbus-simulator/daemon/port.py:227-232 | a frame whose body was altered inside four consecutive bytes is rejected by its CRC, for every body length |
| Port.FrameBytes | unifiedbus-simulator/daemon/port.py:184-209 | every byte of a frame: magic 0x55 0x42, opcode, flags and lane nibbles, then number, source, destination, token, the two lengths and the CRC most significant byte first, tag, metadata, payload; packing raises if and only if a field does not fit its width |
| Port.ForeignRefused | unifiedbus-simulator/daemon/port.py:213-221 | fewer than 44 bytes wait for more, any other magic is refused |
| Port.AnnouncedVerdict | unifiedbus-simulator/daemon/port.py:216-250 | a header that announces two lengths and a CRC: the frame waits for its bytes, is refused by the CRC or by its metadata, or is taken with exactly those bytes as metadata and payload |
| Crc32.ShiftInjective | unifiedbus-simulator/daemon/port.py:192-193 | the register step of CRC-32 (section 8 of RFC 1952) is injective |
| Crc32.BurstChangesRegister | unifiedbus-simulator/daemon/port.py:192-193 | every error burst of at most 32 bits, at any bit position, changes the CRC register |
| Crc32.WindowDetected | unifiedbus-simulator/daemon/port.py:192-193 | messages of equal length that differ only inside four consecutive bytes have different CRC-32 values |
| Crc32.CrcFits | unifiedbus-simulator/daemon/port.py:193 | the CRC value fits 32 bits |
| Crc32.Residue | unifiedbus-simulator/daemon/port.py:192-193 | any message followed by its own CRC, least significant byte first, has the CRC 0x2144DF1C: this fixes the polynomial, the order of the bits and the final complement |
| Crc32.OwnChecksum | unifiedbus-simulator/daemon/port.py:192-193 | the same with the four bytes of the CRC written out |
| Crc32.NothingIsZero | unifiedbus-simulator/daemon/port.py:192-193 | the CRC of nothing is 0: the register begins as it is complemented in the end |
| Reassembly.PacketStream.Receive | unifiedbus-simulator/daemon/fabric.py:136-145 | one turn of the receive loop takes off exactly the complete frames at the front of the buffer; the inner loop terminates since every frame has at least 44 bytes |
| Reassembly.DrainAppend | unifiedbus-simulator/daemon/fabric.py:139-145 | draining a buffer and then more bytes gives the same as draining the concatenation |
| Reassembly.ChunkingIrrelevant | unifiedbus-simulator/daemon/fabric.py:130-149 | for any bytes, good or bad, the packets delivered, the survival of the connection and the residue depend on the concatenation of the chunks alone |
| Reassembly.DrainOfPrefix | unifiedbus-simulator/daemon/fabric.py:141-145 | after any k bytes of a stream of frames exactly the complete frames are out, and the residue is a strict prefix of the next frame or empty |
| Reassembly.StreamDelivered | unifiedbus-simulator/guest_sdk/python/unifiedbus/device.py:92-105 | however the serialisation of a list of well-formed packets is cut into chunks, the receive loop yields exactly that list |
| Reassembly.DeliveredSoFar | unifiedbus-simulator/daemon/fabric.py:130-149 | the same at every chunk boundary: exactly the frames that have arrived completely, in order |
| ReplayWindow.CheckRefines | unifiedbus-simulator/daemon/cip.py:74-97 | one window check gives the verdict of the set of admitted numbers (stale, duplicate, admitted) and the new bitmap stands for the set grown by exactly the admitted number, across both shift branches and for every window size |
| ReplayWindow.WindowRefinesSet | unifiedbus-simulator/daemon/cip.py:74-97 | after every run over many sources, each stored highest is the maximum of the admitted set, bit i below the window size is set exactly if highest - i was admitted, and a set bit above it also names an admitted number |
| ReplayWindow.AdmissionExact | unifiedbus-simulator/daemon/cip.py:74-97 | a packet is admitted if and only if its number is new and above the highest admitted one minus the window size, and stale if and only if it is not above that |
| ReplayWindow.AdmittedOnce | unifiedbus-simulator/daemon/cip.py:81-97 | no (source, number) pair is admitted twice in any run |
| ReplayWindow.HighBitsNeverConsulted | unifiedbus-simulator/daemon/cip.py:83-93 | bits at or above the window size never influence a verdict, however long the run goes on |
| ReplayWindow.TooOldIffArrived | unifiedbus-simulator/daemon/cip.py:77-80 | a number is stale if and only if the source has sent, admitted or not, a number at least the window size above it |
| ReplayWindow.BitmapExact | unifiedbus-simulator/daemon/cip.py:81-97 | after every run, for every i, bit i of the unmasked bitmap is set if and only if highest - i was admitted since the bitmap was last set to 1 |
| ReplayWindow.BitmapFitsIff | unifiedbus-simulator/daemon/cip.py:33-97 | the bitmap fits n bits, 64 for instance, if and only if all those numbers lie less than n below the highest |
| ReplayWindow.BitmapExceedsWindow | unifiedbus-simulator/daemon/cip.py:33-93 | the bitmap, called a 64-bit bitmap in the comment of line 33, outgrows every width: n + 1 consecutive numbers set exactly the bits 0 to n, for every n |
| Cip.BlocksAreKeystream | unifiedbus-simulator/daemon/cip.py:49-55 | the bytes accumulated by either keystream loop are those of one unbounded keystream, whatever the number of rounds |
| Cip.MaskInvolution | unifiedbus-simulator/daemon/cip.py:57-117 | masking twice under one token and number restores the data, for every length |
| Cip.MaskOfPrefix | unifiedbus-simulator/daemon/cip.py:50-57 | a shorter message meets a prefix of the keystream of a longer one |
| Cip.OpenOfSeal | unifiedbus-simulator/daemon/cip.py:39-119 | what was sealed under the same suite, token and number is opened to the payload if and only if the window admits the number; empty payloads and suite NONE bypass the window |
| Cip.AdmissionConsumesNumber | unifiedbus-simulator/daemon/cip.py:74-107 | the window moves before the tag is looked at (the docstring has the opposite order), so a number is used up even by a packet whose tag fails |
| Cip.OpenIsCountedOnce | unifiedbus-simulator/daemon/cip.py:66-119 | every call that meets the window is counted exactly once, as decrypted, tampered or replayed |
| Cip.SealExact | unifiedbus-simulator/daemon/cip.py:20-64 | each bit of the ciphertext is the payload bit exclusive or the bit of byte i % 32 of sha256(sha256("UnifiedBus_CIP_Root_Key" + token) + token + number + i/32), with token and i/32 in four bytes and the number in eight; the tag is the first half of the HMAC over ciphertext, token, number and suite; without suite or payload nothing is done |
| Cip.OpenExact | unifiedbus-simulator/daemon/cip.py:66-119 | the four outcomes exactly: stale, duplicate, wrong tag, and the text bit by bit against the same hash bytes |
| Cip.KeyMatters | unifiedbus-simulator/daemon/cip.py:39-64 | sealing a payload under another token or another number gives another ciphertext, for an exhibited hash function |
| Cip.AlteredIsRejected | unifiedbus-simulator/daemon/cip.py:66-107 | a packet the window admits whose ciphertext, token, number or suite is not what was sealed is refused by its tag, for every MAC that does not collide on the two messages concerned |
| Cip.CIPEngine.Keystream | unifiedbus-simulator/daemon/cip.py:49-57 | the keystream loop of both calls terminates with enough bytes, and combining data with them is masking |
| Cip.CIPEngine.Unmask | unifiedbus-simulator/daemon/cip.py:99-119 | what follows the replay check: tag, keystream and the two counters |
| Cip.CIPEngine.EncryptAndTag | unifiedbus-simulator/daemon/cip.py:39-64 | the loop computes Seal: masked payload and truncated HMAC; it terminates because every round adds 32 bytes; only the counter of encrypted packets changes |
| Cip.CIPEngine.DecryptAndVerify | unifiedbus-simulator/daemon/cip.py:66-119 | result and whole new state of the engine, with every rejection |
| Cip.CIPEngine.CheckReplay | unifiedbus-simulator/daemon/cip.py:74-97 | the two dictionaries afterwards stand for the windows of the specification |
| Router.UBMMSwitch.RegisterNode | unifiedbus-simulator/daemon/router.py:64-67 | the whole new table |
| Router.UBMMSwitch.UnregisterNode | unifiedbus-simulator/daemon/router.py:69-76 | segments of the node and every jetty with the node at either end are removed by the deletion loop, and nothing else |
| Router.UBMMSwitch.RegisterSegment | unifiedbus-simulator/daemon/router.py:78-83 | the whole new table and the stored record, permissions in upper case |
| Router.UBMMSwitch.UnregisterSegment | unifiedbus-simulator/daemon/router.py:85-88 | the whole new table |
| Router.UBMMSwitch.CreateJetty | unifiedbus-simulator/daemon/router.py:90-94 | the whole new table and the stored record |
| Router.UBMMSwitch.ExportMemoryPool | unifiedbus-simulator/daemon/router.py:100-107 | the number handed out and the whole new table: pool record, segment entry and counter |
| Router.EntryIsLatest | unifiedbus-simulator/daemon/router.py:78-107 | over every history a (node, segment) entry is a given record if and only if the latest event about it (register, export, unregister of the segment or of the node) stored that record |
| Router.KeysMatchRecords | unifiedbus-simulator/daemon/router.py:78-83 | every stored key matches the ids inside its record |
| Router.AccessExact | unifiedbus-simulator/daemon/router.py:119-135 | every answer of the access check in the fields of the latest event about the segment: granted if and only if that is a registration or export with 0 <= offset, offset + length <= size, token 0 or equal, and W or w in its permissions for a write, R or r for a read; out of bounds, permission denied and node unknown likewise |
| Router.NodeIsAttached | unifiedbus-simulator/daemon/router.py:64-83 | a node is known if and only if something registered it and it was not unregistered since |
| Router.JettyIsLive | unifiedbus-simulator/daemon/router.py:69-94 | a jetty is a given record if and only if it was created so and neither recreated nor an end of it unregistered since |
| Router.PoolsAreExports | unifiedbus-simulator/daemon/router.py:100-117 | pool numbers are 1, 2, 3, ... in order of export, and the record under a number is that of its export, whatever happened since |
| Router.ExportIsFresh | unifiedbus-simulator/daemon/router.py:103-106 | the next pool number is unused and all used ones are below it |
| Router.ImportExact | unifiedbus-simulator/daemon/router.py:109-117 | importing a pool gives a record if and only if some export received the number, the record has the fields of that export, and its token is 0 or matches, whatever happened since |
| Router.PoolReachableIff | unifiedbus-simulator/daemon/router.py:100-135 | the segment entry under the number of an exported pool is the pool record if and only if the latest event about it stored that very record |
| Router.PoolOutlivesSegment | unifiedbus-simulator/daemon/router.py:69-117 | both ways to part them: after the owner has gone, or registered a segment of the same number, the import succeeds but the memory is unknown or another segment |
| FabricSwitch.UBFabricSwitch.ProcessPacket | unifiedbus-simulator/daemon/fabric.py:166-195 | answer, forwarded packets and whole new state (table, CIP engine, memories) of one packet, for every branch, including handlers that raise |
| FabricSwitch.UBFabricSwitch.Handle | unifiedbus-simulator/daemon/fabric.py:198-603 | the dispatch behind the CIP gate computes the specified outcome |
| FabricSwitch.UBFabricSwitch.Control | unifiedbus-simulator/daemon/fabric.py:201-278 | link training, credit update, ping, node and segment registration, jetties |
| FabricSwitch.UBFabricSwitch.Write | unifiedbus-simulator/daemon/fabric.py:283-321 | the four writes: access check, store into the slice of the node memory, forward, answer |
| FabricSwitch.UBFabricSwitch.Read | unifiedbus-simulator/daemon/fabric.py:326-358 | the two reads, with Python slicing and the zero answer outside the memory |
| FabricSwitch.UBFabricSwitch.Atomic | unifiedbus-simulator/daemon/fabric.py:363-403 | the seven read-modify-write opcodes, including values struct.pack refuses |
| FabricSwitch.UBFabricSwitch.Rest | unifiedbus-simulator/daemon/fabric.py:408-603 | coherence, sockets, calls, pools, emergency broadcast, queries, generic forwarding |
| FabricSwitch.UBFabricSwitch.DetachNode | unifiedbus-simulator/daemon/fabric.py:155-159 | the end of a connection removes the node, its segments and its jetties, and keeps the replay windows |
| FabricTable.TableFollows | unifiedbus-simulator/daemon/fabric.py:155-278 | the switch table of every run is that of the table events its packets cause, read off their opcode numbers and fields, behind the CIP gate; so the laws of entries, jetties, pools and imports hold of the packets |
| FabricTable.EntryStands | unifiedbus-simulator/daemon/fabric.py:155-255 | a segment entry is a given record if and only if a REG_SEG or OBMM_EXPORT packet with these fields stands: the node has neither set the segment again nor left since |
| FabricTable.AccessStands | unifiedbus-simulator/daemon/fabric.py:155-255 | in every run an access is granted if and only if such a packet stands whose size covers the range, whose token is 0 or equal and whose permission text has the letter |
| FabricTable.RefusedIff | unifiedbus-simulator/daemon/fabric.py:283-369 | in every run a read, write or atomic request behind the gate is refused, with the reason of the access check, if and only if no such packet stands |
| FabricTable.ConnectedIff | unifiedbus-simulator/daemon/fabric.py:155-242 | a node is connected if and only if a REG_NODE packet of it passed the gate and it has not left since |
| FabricLog.DispatchMemory | unifiedbus-simulator/daemon/fabric.py:166-403 | a packet changes node memory by exactly its logged effect |
| FabricLog.MemoryRefinesLog | unifiedbus-simulator/daemon/fabric.py:229-403 | in every run each connected node holds 64 MB and each byte is what the log of accepted operations says: memory length stays constant, as decryption preserves length and word packing is inverse to unpacking |
| FabricLog.ReadReturnsLog | unifiedbus-simulator/daemon/fabric.py:166-358 | a read that passes the CIP gate and is granted returns, for every length, also a negative one, the slice Python takes of the memory the log describes; zeros outside the memory |
| FabricLog.AtomicReturnsLog | unifiedbus-simulator/daemon/fabric.py:166-403 | an atomic operation that passes the gate, is granted and answered returns the word of the log as it was before it |
| FabricLog.ReadLengthExact | unifiedbus-simulator/daemon/fabric.py:326-346 | a granted read answers with as many bytes as asked for, exactly unless a negative length reaches back past the start of the memory |
| FabricLog.ReadInsideSegmentIff | unifiedbus-simulator/daemon/fabric.py:326-346 | a granted read returns only bytes of its segment if and only if its length does not end the slice, counted from the end of the memory, past the segment |
| FabricLog.ReadEscapesSegment | unifiedbus-simulator/daemon/fabric.py:229-358 | a run in which a read of length -8 in a segment of 16 bytes returns all but eight bytes of the memory |
| FabricLog.RejectionChangesNothing | unifiedbus-simulator/daemon/fabric.py:184-194 | a request that is refused, unanswered or fails changes neither memory nor table and forwards nothing |
| FabricLog.WindowsFollowHistory | unifiedbus-simulator/daemon/fabric.py:175-184 | in every run the replay windows are those of the packets that met them, across detaches |
| FabricLog.EncryptedAtMostOnce | unifiedbus-simulator/daemon/fabric.py:175-195 | of all encrypted packets of a run with one source and number at most one passes the gate; the others change no memory |
| FabricLog.EncryptedWriteStoresPlaintext | unifiedbus-simulator/daemon/fabric.py:283-305 | an encrypted write that takes effect stores the decryption of its payload under its own token and number, and its tag was right |
| FabricLog.GateExact | unifiedbus-simulator/daemon/fabric.py:175-195 | what the gate says of an encrypted packet in any run: stale, duplicate, wrong tag or the plaintext, decided exactly and in this order |
| FabricLog.GateOpens | unifiedbus-simulator/daemon/fabric.py:175-195 | a packet whose flags have bit 7 is opened under its own payload, tag, token, number and source; any other passes as it is |
| FabricLog.StaleIff | unifiedbus-simulator/daemon/fabric.py:155-184 | an encrypted packet is refused as stale if and only if some encrypted packet of its source, in this connection or an earlier one, with a right tag or a wrong one, had a number at least a window above |
| FabricLog.WindowSurvivesDetach | unifiedbus-simulator/daemon/fabric.py:155-184 | a node that reattaches and counts from the start again is refused every number at least a window below one it had sent before |
| Atomics.FetchAddsAccumulate | unifiedbus-simulator/daemon/fabric.py:381-383 | while only additions touch a word it is its initial value plus all addends so far modulo 2^64 |
| Atomics.FetchAddReturns | unifiedbus-simulator/daemon/fabric.py:363-403 | in a run, each fetch-and-add returns the value at the start plus all earlier addends modulo 2^64 |
| Atomics.FetchAddsCommute | unifiedbus-simulator/daemon/fabric.py:381-383 | the final value does not depend on the order of the additions |
| Atomics.FabricFetchAdds | unifiedbus-simulator/daemon/fabric.py:363-403 | the same for the word in the memory of a connected node after a run |
| Atomics.CasSucceedsOnce | unifiedbus-simulator/daemon/fabric.py:376-380 | among compare-and-swaps that share a compare value and swap to others exactly one succeeds if the word held the value and there was a competitor, and none otherwise |
| Atomics.CasWonOnce | unifiedbus-simulator/daemon/fabric.py:363-403 | in a run, of two such competitors at most one is answered with the compare value |
| Atomics.UpdateAnswers | unifiedbus-simulator/daemon/fabric.py:371-403 | an accepted atomic operation is answered, with the word the log holds before it |
| Atomics.AtomicExact | unifiedbus-simulator/daemon/fabric.py:363-403 | by opcode number: the handler raises if and only if the word it would pack is outside 0 to 2^64 - 1 (swap, or, or a compare-and-swap that matched); otherwise it answers the old word, and the new word is the swap value if the old one equals the compare value (0x34, 0x67), the sum modulo 2^64 (0x35, 0x68), has exactly the bits set in both (0x36) or in either (0x37), or is the operand (0x39); no other cell changes |
| Atomics.AtomicOutside | unifiedbus-simulator/daemon/fabric.py:371-403 | past the memory, or without a connected node, nothing is stored and zero is answered |
| FabricReplies.ProcessEchoes | unifiedbus-simulator/daemon/fabric.py:166-603 | every branch answers the sender, under the number of the request, with a response opcode; what is forwarded is the request itself, to connected nodes |
| FabricReplies.SilentExact | unifiedbus-simulator/daemon/fabric.py:211-603 | a request stays unanswered if and only if it is a credit update or has no branch of its own and no connected destination, and the CIP gate lets it through |
| FabricReplies.AckedWriteReadsBack | unifiedbus-simulator/daemon/fabric.py:166-358 | a write that passes the gate and is granted is acknowledged, and a granted read of the same range returns it if and only if the range lies inside the memory of a connected node or it wrote zeros |
| FabricReplies.AckedWriteCanBeLost | unifiedbus-simulator/daemon/fabric.py:229-358 | a run in which a write past the 64 MB is acknowledged and lost |
| FabricReplies.WriteExact | unifiedbus-simulator/daemon/fabric.py:283-321 | a granted write of opcode 0x32, 0x60, 0x61 or 0x70: answer, forwarding, and all memory afterwards |
| FabricReplies.ReadExact | unifiedbus-simulator/daemon/fabric.py:326-358 | a granted read of opcode 0x30 or 0x62 of a length that is not negative: the addressed cells, or zeros where there is no such memory |
| FabricReplies.ControlAnswers | unifiedbus-simulator/daemon/fabric.py:201-278 | what opcodes 0x01, 0x03, 0x13, 0x20, 0x22 and 0x24 are answered, and when they raise |
| FabricReplies.RestAnswers | unifiedbus-simulator/daemon/fabric.py:408-590 | what coherence, socket, call, emergency and query opcodes are answered, in whose name, and to whom they are passed on |
| FabricReplies.OtherAnswers | unifiedbus-simulator/daemon/fabric.py:592-603 | every opcode without a branch is passed on and acknowledged if its destination is connected, and unanswered otherwise |
| FabricReplies.HandledIff | unifiedbus-simulator/daemon/fabric.py:201-603 | which opcode numbers have a branch |
| FabricReplies.PoolAnswers | unifiedbus-simulator/daemon/fabric.py:468-511 | an export is told its number, an import the record or a refusal |
| FabricReplies.RefusalAnswers | unifiedbus-simulator/daemon/fabric.py:184-403 | what the gate refuses is answered with the reason; a memory request that names no segment raises |
| Device.UBDevice.GetSeq | unifiedbus-simulator/guest_sdk/python/unifiedbus/device.py:53-57 | the number handed out and the counter after it |
| Device.UBDevice.BeginSend | unifiedbus-simulator/guest_sdk/python/unifiedbus/device.py:122-129 | the reply slot is there at the moment the bytes are handed to sendall, and is removed again if they cannot be sent |
| Device.UBDevice.OnPacket | unifiedbus-simulator/guest_sdk/python/unifiedbus/device.py:107-118 | an incoming packet fills a slot or is applied to the local memory |
| Device.UBDevice.EndSend | unifiedbus-simulator/guest_sdk/python/unifiedbus/device.py:131-140 | the reply or its absence, and the removal of the slot |
| Device.StoreLocalIsAssign | unifiedbus-simulator/guest_sdk/python/unifiedbus/device.py:116-118 | for offsets the fabric lets through the guest stores what the fabric stores, under the same bound |
| Device.SlotTakenExactly | unifiedbus-simulator/guest_sdk/python/unifiedbus/device.py:109-111 | a packet takes a slot, empty or filled, if and only if it has a response opcode and the number of the slot, whoever sent it; the keys stay |
| Device.DeliverExact | unifiedbus-simulator/guest_sdk/python/unifiedbus/device.py:107-118 | by opcode number, for every offset: a reply someone waits for goes into its slot, a write 0x60 or 0x70 that is not too long replaces the slice Python takes, anything else is dropped |
| Network.RunsAreOrderly | unifiedbus-simulator/guest_sdk/python/unifiedbus/device.py:53-140 | in every interleaving in which guests send only non-response opcodes: numbers are never reused, the pending keys are exactly the calls inside send_sync, every slot holds the answer to its own request, and no answer still waited for is lost |
| Network.AnswersAreFromThisRun | unifiedbus-simulator/daemon/fabric.py:141-150 | every recorded answer is what the fabric gave at some step of this very run when it took the request recorded under its number from the head of that connection |
| Network.ReturnedReplyIsOwn | unifiedbus-simulator/guest_sdk/python/unifiedbus/device.py:122-140 | what send_sync returns is what the fabric answered in this run when it took the packet that call had sent from the connection |
| Network.ForwardedResponseMistaken | unifiedbus-simulator/daemon/fabric.py:424-463 | without that discipline it fails, exactly so: a forwarded packet takes the slot of a call, empty or filled with a genuine reply not yet collected, if and only if it has a response opcode and the number of the call, is addressed to the connected guest and passes the gate, whoever sent it |
| Network.StrayReplyInRun | unifiedbus-simulator/daemon/fabric.py:446-463 | a run in which a call is handed the packet of another guest before the fabric has seen its request |
| Network.CallsEnd | unifiedbus-simulator/guest_sdk/python/unifiedbus/device.py:131-140 | a call returns only once its slot holds a reply and times out only while it holds none; either way the slot goes |
| Network.RaisingDisconnects | unifiedbus-simulator/daemon/fabric.py:146-159 | a handler that raises ends its connection, and the node leaves the fabric |
| Replica.PacketMirrors | unifiedbus-simulator/daemon/fabric.py:283-310 | a packet changes the copy of each node exactly as what it puts on the wire of that node will change the copy of the guest |
| Replica.ReplicasAgree | unifiedbus-simulator/guest_sdk/python/unifiedbus/device.py:113-118 | in every reachable state of runs whose stores are unencrypted URMA_WRITE or CDMA_SUBMIT, the fabric copy of each connected node equals the guest copy after the packets still in flight |
| Replica.WriteKeepsAgreementIff | unifiedbus-simulator/daemon/fabric.py:166-310 | a write of any kind that passes the gate and is granted keeps agreement if and only if the guest stores the same bytes: a mirrored opcode whose payload the gate left as it was, or bytes that were there already |
| Replica.AtomicKeepsAgreementIff | unifiedbus-simulator/daemon/fabric.py:166-403 | an atomic operation behind the gate, never forwarded, keeps agreement if and only if the word keeps its value |
| Replica.ReRegistrationKeepsAgreementIff | unifiedbus-simulator/daemon/fabric.py:229-242 | registering a connected node again forwards nothing and keeps agreement if and only if the memory was all zeros |
| Silicon.InsideSegmentIff | unifiedbus-qemu-silicon/silicon/ub_silicon_backend.c:126-147 | for every segment of 64-bit base and size, an accepted access lies inside its segment if and only if neither its end in the segment nor its address wraps around 64 bits |
| Silicon.InsideMemoryIff | unifiedbus-qemu-silicon/silicon/ub_silicon_backend.c:142-147 | for every such segment, an accepted access lies at base plus offset and inside the memory array if and only if base plus offset plus length does not wrap, and leaves the array if and only if the end of the wrapped address wraps |
| Silicon.UndefinedIff | unifiedbus-qemu-silicon/silicon/ub_silicon_backend.c:126-161 | the outcome C leaves undefined is exactly that of a store or read that passes the checks and whose address ends beyond 64 bits |
| Silicon.WrapReachesNeighbour | unifiedbus-qemu-silicon/silicon/ub_silicon_backend.c:127-147 | first wrap: a request whose end wraps is accepted although it lies below its segment |
| Silicon.LongSegmentReachesBelow | unifiedbus-qemu-silicon/silicon/ub_silicon_backend.c:142-147 | second wrap: through a segment of 2^64 - 1 bytes a request that does not wrap in it reaches every place below its base |
| Silicon.WrapLeavesMemory | unifiedbus-qemu-silicon/silicon/ub_silicon_backend.c:143-147 | third wrap: an accepted request whose address ends beyond 64 bits leaves the memory array |
| Silicon.TransformIsXor | unifiedbus-qemu-silicon/silicon/ub_silicon_backend.c:95-100 | the sum of more than eight bits, truncated after the exclusive or, acts as its low eight bits |
| Silicon.TransformTwiceIff | unifiedbus-qemu-silicon/silicon/ub_silicon_backend.c:95-100 | applying the byte loop under two tokens in turn restores the data if and only if, for each of the eight lowest bits, the bit differs from the one eight places above in both tokens or in neither |
| Silicon.KeySeedAt | unifiedbus-qemu-silicon/silicon/ub_silicon_backend.c:96 | bit k of the key seed is bit k of the token exclusive or bit k + 8 |
| Silicon.TransformedZero | unifiedbus-qemu-silicon/silicon/ub_silicon_backend.c:95-100 | so is bit k of the first byte of a transformed zero |
| Silicon.TransformExact | unifiedbus-qemu-silicon/silicon/ub_silicon_backend.c:95-100 | byte i of the transformed data is, bit by bit, the input byte exclusive or seed + 31 * i modulo 256 |
| Silicon.ErrorsExact | unifiedbus-qemu-silicon/silicon/ub_silicon_backend.c:117-147 | for each of the codes -3 to -6 exactly when it is returned, with the wraps written out, and the address of what is let in |
| Silicon.ProcessExact | unifiedbus-qemu-silicon/silicon/ub_silicon_backend.c:104-174 | -1 for an unknown node, -2 for a link that is down, and otherwise what the locked section answers and leaves in the memory of the destination; no other memory and no table changes |
| Silicon.LinkExact | unifiedbus-qemu-silicon/silicon/ub_silicon_backend.c:31-61 | a link going up changes nothing else; a link going down empties both tables and spares memory and counters |
| Silicon.ExecuteExact | unifiedbus-qemu-silicon/silicon/ub_silicon_backend.c:149-174 | a request that is let in, by opcode number: 0x60 and 0x70 store their data, transformed if and only if flag bit 7 is set, 0x62 reads, any other does nothing |
| Silicon.FlitsExact | unifiedbus-qemu-silicon/silicon/ub_silicon_backend.c:177-178 | the flit count is the one with (f - 1) * 64 < length <= f * 64, and 1 for length 0 and for the lengths whose 32-bit sum with 63 wraps |
| Silicon.ProcessCounts | unifiedbus-qemu-silicon/silicon/ub_silicon_backend.c:176-188 | a request that succeeds adds these flits and its bytes, modulo 2^64, to what its source has sent and its destination received, and to nothing else; one that fails counts nothing |
| Silicon.SiliconNode.Register | unifiedbus-qemu-silicon/silicon/ub_silicon_backend.c:31-46 | the whole new node |
| Silicon.SiliconNode.Unregister | unifiedbus-qemu-silicon/silicon/ub_silicon_backend.c:48-61 | the link goes down and both tables are cleared; memory and counters stay |
| Silicon.SiliconNode.RegisterSegment | unifiedbus-qemu-silicon/silicon/ub_silicon_backend.c:63-77 | the whole new node and the returned code |
| Silicon.SiliconNode.CreateJetty | unifiedbus-qemu-silicon/silicon/ub_silicon_backend.c:79-92 | the whole new node and the returned code |
| Silicon.SiliconNode.CipTransform | unifiedbus-qemu-silicon/silicon/ub_silicon_backend.c:95-100 | the loop writes the transformed bytes into the aperture and nothing else |
| Silicon.SiliconNode.ExecuteLocked | unifiedbus-qemu-silicon/silicon/ub_silicon_backend.c:118-174 | result code, bytes or the undefined outcome, and memory, of the section under the lock of the destination |
| Silicon.SiliconNode.AccountTx | unifiedbus-qemu-silicon/silicon/ub_silicon_backend.c:177-183 | the counters of the source, in their width |
| Silicon.SiliconNode.AccountRx | unifiedbus-qemu-silicon/silicon/ub_silicon_backend.c:185-188 | the counters of the destination, in their width |
| Silicon.ProcessWr | unifiedbus-qemu-silicon/silicon/ub_silicon_backend.c:102-197 | an undisturbed work request on the 64 nodes of the fabric: every error code from -1 to -6, and all nodes afterwards, also when source and destination are one node |
| SiliconThreads.LinearisesIff | unifiedbus-qemu-silicon/silicon/ub_silicon_backend.c:48-197 | for every interleaving of threads at their lock sections with registration calls: memory, links and tables equal the serial replay in lock order and every result is that of the indivisible operation (with -3 allowed for -2), if and only if no request finds a segment under the lock of a node whose link is down |
| SiliconThreads.RunsLinearise | unifiedbus-qemu-silicon/silicon/ub_silicon_backend.c:48-197 | so every run linearises in which segments are registered only while the link is up |
| SiliconThreads.LockExactIff | unifiedbus-qemu-silicon/silicon/ub_silicon_backend.c:112-124 | the result under the lock is exactly that of the indivisible operation if and only if the link is still up |
| SiliconThreads.LockExplainedIff | unifiedbus-qemu-silicon/silicon/ub_silicon_backend.c:112-124 | it is explained, -3 allowed for -2, if and only if the link is up or the segment is not registered |
| SiliconThreads.CallsArePlaced | unifiedbus-qemu-silicon/silicon/ub_silicon_backend.c:102-197 | every call with a result has exactly one place in that order, after its beginning, and the entry there bears its result |
| SiliconThreads.MemoryFrozenAfterUnregister | unifiedbus-qemu-silicon/silicon/ub_silicon_backend.c:48-61 | no byte of a node changes between its unregistration and its next segment registration, although link_up is read outside the lock |
| SiliconThreads.RaceChangesErrorCode | unifiedbus-qemu-silicon/silicon/ub_silicon_backend.c:112-124 | a request overtaken by an unregistration reports -3, where it would succeed at the serial place before the unregistration and report -2 at the one after it |
| SiliconThreads.OfflineRegistrationIsNotSerial | unifiedbus-qemu-silicon/silicon/ub_silicon_backend.c:63-77 | a run where the condition fails: a segment registered while the link is down lets a request that passed the link check before write to an offline node |
| SiliconThreads.UninterruptedIsProcess | unifiedbus-qemu-silicon/silicon/ub_silicon_backend.c:102-197 | the four steps of one thread in a row are the undisturbed work request: nodes, counters, result, one entry in the order |
| SiliconThreads.BeginExact | unifiedbus-qemu-silicon/silicon/ub_silicon_backend.c:104-115 | what is answered before the lock: -1 for an unknown node, -2 for a link that is down at that moment |
| SiliconTelemetry.EveryGrantCounted | unifiedbus-qemu-silicon/silicon/ub_silicon_backend.c:174-188 | at every interleaving point, for every set of nodes, the counters of either side plus what running calls still owe these nodes equal everything granted from them, or to them, modulo 2^64, in flits and in bytes |
| SiliconTelemetry.TrafficConserved | unifiedbus-qemu-silicon/silicon/ub_silicon_backend.c:174-188 | the transmitted total minus the received total is what requests between their two telemetry sections amount to, including self-transfers and reopened nodes |
| SiliconTelemetry.QuietTotalsAgree | unifiedbus-qemu-silicon/silicon/ub_silicon_backend.c:174-188 | with no request between the sections both totals agree, exactly while they fit the counters |
| Driver.UbusDriver.DevOpen | unifiedbus-qemu-silicon/kernel/ubus_driver.c:24-37 | returned handle and whole new state of driver and fabric |
| Driver.UbusDriver.DevClose | unifiedbus-qemu-silicon/kernel/ubus_driver.c:39-44 | returned code and whole new state |
| Driver.UbusDriver.IoctlRegSeg | unifiedbus-qemu-silicon/kernel/ubus_driver.c:66-74 | the id handed out and the whole new state, the code of register_segment being ignored |
| Driver.UbusDriver.IoctlCreateJetty | unifiedbus-qemu-silicon/kernel/ubus_driver.c:76-82 | the id handed out and the whole new state |
| Driver.UbusDriver.IoctlSubmitWr | unifiedbus-qemu-silicon/kernel/ubus_driver.c:84-117 | translation through the jetty table and the outcome of the work request, on a fabric of 64 separate nodes, with an outcome for what leaves the table or the memory array |
| Driver.ClosedFails | unifiedbus-qemu-silicon/kernel/ubus_driver.c:25-47 | a call on a handle that is not open fails with -1 and changes nothing |
| Driver.OpenExact | unifiedbus-qemu-silicon/kernel/ubus_driver.c:24-44 | what opening and closing answer and change |
| Driver.EntriesExact | unifiedbus-qemu-silicon/kernel/ubus_driver.c:66-82 | the number handed out and the table entry under it, if the table goes that far |
| Driver.SubmitExact | unifiedbus-qemu-silicon/kernel/ubus_driver.c:84-117 | a request goes to the node, and under the token, of its jetty; its result is the reply |
| Driver.IdsAreCounted | unifiedbus-qemu-silicon/kernel/ubus_driver.c:68 | the next segment id is one more than the number of granted registrations, in 32 bits |
| Driver.IdsRepeatIff | unifiedbus-qemu-silicon/kernel/ubus_driver.c:68 | two granted registrations get the same id if and only if a multiple of 2^32 lies between them |
| Driver.RegisteredIff | unifiedbus-qemu-silicon/kernel/ubus_driver.c:66-74 | REG_SEG answers with an id in any case; requests find the segment if and only if the id is below 256 |
| Driver.HugeSegmentReachesBelow | unifiedbus-qemu-silicon/kernel/ubus_driver.c:66-74 | REG_SEG takes such a size: through it a non-wrapping request is let at every place below the base, which belongs to other segments |
| Driver.LayoutOverlapIff | unifiedbus-qemu-silicon/kernel/ubus_driver.c:68-71 | as laid out, two segments of a node share a byte if and only if the lower one is longer than the stride between them |
| Driver.BaseExact | unifiedbus-qemu-silicon/kernel/ubus_driver.c:68-69 | bases are one megabyte apart in 32 bits: they start again after 4096 segments |
| Aperture.StoreMatches | unifiedbus-qemu-silicon/silicon/ub_silicon_backend.c:142-157 | a store inside one stride changes the array of that segment as it would a private one, and no other segment |
| Aperture.AccessMatches | unifiedbus-qemu-silicon/silicon/ub_silicon_backend.c:117-161 | one request on the flat aperture returns what it returns on private arrays, with every error code, the last one exactly beyond 64 segments |
| Aperture.StepMatches | unifiedbus-qemu-silicon/kernel/ubus_driver.c:24-117 | every driver call keeps the correspondence between flat memory and private arrays and returns the same |
| Aperture.StatesMatch | unifiedbus-qemu-silicon/kernel/ubus_driver.c:24-117 | the correspondence holds after every run, including that memory above the last registered base is zero |
| Aperture.RunsSeePrivateArrays | unifiedbus-qemu-silicon/kernel/ubus_driver.c:66-117 | in every run of open, close, REG_SEG, CREATE_JETTY and SUBMIT_WR with segments of at most 1 MB, jetties of the table and non-wrapping requests, every call returns what it returns on private arrays per (node, segment); no access leaves the memory |
| Aperture.FreshSegmentReadsZero | unifiedbus-qemu-silicon/kernel/ubus_driver.c:66-74 | a freshly registered segment reads as zero |
| Aperture.LongSegmentsAlias | unifiedbus-qemu-silicon/kernel/ubus_driver.c:68-71 | the bound of 1 MB is needed: what is stored through the part of a segment that reaches into another is read back through the other |
| Urma.RegisterSegment | unifiedbus-qemu-silicon/open_source_libs/liburma/urma.c:34-56 | the segment or NULL, and the state of the driver |
| Urma.CreateJetty | unifiedbus-qemu-silicon/open_source_libs/liburma/urma.c:67-88 | the jetty or NULL, and the state of the driver; handle and table get the same token |
| Urma.UrmaWrite | unifiedbus-qemu-silicon/open_source_libs/liburma/urma.c:99-118 | the 64-bit local check, the 32-bit length of the request, and the outcome, for all arguments of the C types |
| Urma.UrmaRead | unifiedbus-qemu-silicon/open_source_libs/liburma/urma.c:120-139 | the same for a read, and exactly which bytes of the local buffer change |
| Urma.LocalRangeExact | unifiedbus-qemu-silicon/open_source_libs/liburma/urma.c:101-111 | a local range is refused if and only if its end, counted in 64 bits, lies beyond the buffer; one that ends within 64 bits is let in if and only if it lies in the buffer, one that does not may leave it; the length passed on has 32 bits |
| Urma.CipClientEncrypt | unifiedbus-qemu-silicon/open_source_libs/liburma/urma.c:185-190 | the byte loop of the sender computes the same transform as the device |
| Urma.UrmaWriteEncryptedCip | unifiedbus-qemu-silicon/open_source_libs/liburma/urma.c:192-216 | an encrypted write submits the transformed local bytes with the CIP flag; there is no local check, so a range beyond the buffer leaves it |
| Urma.WriteThenRead | unifiedbus-qemu-silicon/open_source_libs/liburma/urma.c:99-139 | a write followed by a read of the same range through any jetty to the same node returns what the destination stored; under the same token the read succeeds whenever the write did |
| Urma.EncryptedWriteReadsBackIff | unifiedbus-qemu-silicon/open_source_libs/liburma/urma.c:185-216 | an encrypted write followed by a plain read returns the plaintext of the sender if and only if the token of the sender and that of the jetty table agree in which of their lowest eight bits differ from the bits eight places above |
| Urma.CreatedJettyAgrees | unifiedbus-qemu-silicon/open_source_libs/liburma/urma.c:67-88 | the handle from urma_create_jetty agrees with the driver table, node and token, while the table has room |
| Urma.JettyStays | unifiedbus-qemu-silicon/kernel/ubus_driver.c:76-82 | handle and table agree after any calls that neither close the device nor hand out the id of the jetty again |
| Urma.EncryptedRoundTrip | unifiedbus-qemu-silicon/open_source_libs/liburma/urma.c:67-216 | from the call of urma_create_jetty on, after any such calls: if an encrypted write through the jetty succeeds so does the plain read, and the plaintext comes back, for every length and token |
| Obmm.StepShares | unifiedbus-qemu-silicon/open_source_libs/libobmm/obmm.c:62-75 | one pool operation returns what it returns on the shared array and keeps the correspondence; other driver calls leave the array alone |
| Obmm.HandlesShareOneArray | unifiedbus-qemu-silicon/open_source_libs/libobmm/obmm.c:26-75 | a run of imports, pool writes and reads through all handles, interleaved with such calls, returns what it returns on the array |
| Obmm.ExportTogether | unifiedbus-qemu-silicon/open_source_libs/libobmm/obmm.c:19-24 | a freshly exported pool corresponds to an array of zeros nobody has imported |
| Obmm.ServeImport | unifiedbus-qemu-silicon/open_source_libs/libobmm/obmm.c:26-48 | importing adds a handle that reaches the pool through its own jetty and token |
| Obmm.PoolIsOneArray | unifiedbus-qemu-silicon/open_source_libs/libobmm/obmm.c:19-75 | from the start of the driver on, after any calls with segments of at most 1 MB and non-wrapping requests: export, any number of imports with any tokens, and operations through any handles, amid other such calls that neither close a device in use nor store into the pool: every import, write and read returns what it returns on one shared array of zeros, whatever the staging buffers hold |
| Obmm.ObmmPool.Write | unifiedbus-qemu-silicon/open_source_libs/libobmm/obmm.c:62-66 | code, staging buffer and driver state of a pool write |
| Obmm.ObmmPool.Read | unifiedbus-qemu-silicon/open_source_libs/libobmm/obmm.c:68-75 | code, bytes, staging buffer and driver state of a pool read |
| Ring.RingSteps | unifiedbus-qemu-silicon/demonstrators/demo_hccl_ring.c:58-71 | the nested loops make, step by step and rank by rank, exactly the sends of the formula |
| Ring.OneSenderPerChunk | unifiedbus-qemu-silicon/demonstrators/demo_hccl_ring.c:63 | at every step each chunk is sent by exactly one rank, for every number of ranks |
| Ring.DistinctChunks | unifiedbus-qemu-silicon/demonstrators/demo_hccl_ring.c:62-63 | no two ranks send the same chunk in one step |
| Ring.ForwardsWhatItReceived | unifiedbus-qemu-silicon/demonstrators/demo_hccl_ring.c:61-68 | at step s + 1 every rank sends on the chunk it received at step s |
| Ring.PathIsContiguous | unifiedbus-qemu-silicon/demonstrators/demo_hccl_ring.c:63-67 | the sends of a chunk form one contiguous path on the ring |
| Ring.VisitsIff | unifiedbus-qemu-silicon/demonstrators/demo_hccl_ring.c:61-67 | a rank sends a chunk exactly at its distance from the first sender and, one round later, at its distance plus n; so each half of the path covers all ranks |
| Ring.OriginsExactly | unifiedbus-qemu-silicon/demonstrators/demo_hccl_ring.c:61-68 | index paths only: exactly from which ranks chains of sends of a chunk lead to a rank after each step |
| Ring.OriginsArePaths | unifiedbus-qemu-silicon/demonstrators/demo_hccl_ring.c:61-68 | the recursion gathers exactly the ranks the sends of the chunk lead from, in step order |
| Ring.AllPathsComplete | unifiedbus-qemu-silicon/demonstrators/demo_hccl_ring.c:61-68 | index paths only: after 2(n - 1) steps chains of sends of every chunk lead from every rank to every rank |
| Ring.NoStepIsSpare | unifiedbus-qemu-silicon/demonstrators/demo_hccl_ring.c:61-68 | index paths only: one step earlier exactly the last receiver of each chunk is not reached from all |
| Ring.FirstRoundEndsAt | unifiedbus-qemu-silicon/demonstrators/demo_hccl_ring.c:60-68 | index paths only: after the first n - 1 steps exactly the last receiver of a chunk is reached from all |
| Ring.SendsInBounds | unifiedbus-qemu-silicon/demonstrators/demo_hccl_ring.c:58-68 | every send lies inside the tensor, whatever its size |
| Ring.ChunksDisjoint | unifiedbus-qemu-silicon/demonstrators/demo_hccl_ring.c:58-64 | no byte belongs to two chunks |
| Ring.ChunksPartitionIff | unifiedbus-qemu-silicon/demonstrators/demo_hccl_ring.c:58-64 | the chunk ranges cover the tensor if and only if the number of ranks divides its size |
| RingRun.SendMoves | unifiedbus-qemu-silicon/open_source_libs/liburma/urma.c:99-118 | a send of the ring succeeds, overwrites its range of the segment of the next rank, and changes no other byte of any node |
| RingRun.CarriesNext | unifiedbus-qemu-silicon/demonstrators/demo_hccl_ring.c:63-68 | what the segment of a successor holds after one more send: chunks of the tensor of the one sender, zero elsewhere |
| RingRun.FullDelivery | unifiedbus-qemu-silicon/demonstrators/demo_hccl_ring.c:58-71 | after n sends the whole chunks of the tensor have arrived, and nothing beyond them ever does |
| RingRun.RingAllReduce | unifiedbus-qemu-silicon/demonstrators/demo_hccl_ring.c:25-71 | the demonstrator from a fresh driver: every call succeeds, and in the end the segment of each rank holds the whole chunks of the tensor of its predecessor and nothing of any other rank; the tensors are unchanged |

## Left out

- Sockets, asyncio, process start, signal handling, the dashboard, both `ubctl` tools and the QEMU runner: input and output.
- Real cryptography: no secrecy and no forgery claims; hash functions are uninterpreted.
- JSON text: metadata is a record of the keys the fabric reads, integers only; metadata of the wrong type, and Python's fallback for an empty or non-dictionary text, are not modelled.
- The fabric's own packet, flit and byte counters, credits, simulated latencies, log lines and the recent-event list: they decide nothing.
- Contents of informational response metadata (timestamps, topology, statistics): one constant stands for them; error texts are enumerated instead.
- Exceptions raised while a forwarded packet is written to another connection: the code swallows them, and the model's connections do not fail half-way.
- The emergency broadcast is one step, although the code awaits between its recipients.
- Several connections under one node id, and sequence numbers beyond 32 bits.
- MESI coherence, UMS, URPC, link training and credit accounting beyond their acknowledgement: the handlers hold no state of the named protocol.
- Opcodes without a branch (among them the atomic exclusive-or and the unregistrations) are modelled as what they are, generic forwarding.
- The node-type string of a registration, and `get_jetty`, `created_at` and the traffic fields of a switch-table jetty: nothing reads them.
- `str.upper` on characters outside ASCII.
- Cip.CIPEngine.EncryptAndTag: tokens and numbers that struct.pack refuses, and payloads beyond the 32-bit block counter, are excluded by preconditions.
- Cip.CIPEngine.DecryptAndVerify: the same preconditions; a packet from the wire meets them.
- Network.RunsAreOrderly: concerns safety; that a reply arrives before the timeout is not claimed.
- Replica.ReplicasAgree: repeated registration of a connected node is excluded with the other stores; `Replica.ReRegistrationKeepsAgreementIff` says when it keeps agreement.
- Silicon.SiliconNode.ExecuteLocked: the atomic opcodes 0x67 and 0x68 are excluded by the type of a request; the driver overwrites their address fields with operands (ubus_driver.c, lines 99-104), so the address they act on is not the intended one.
- Silicon.ProcessWr: the same exclusion of the atomic opcodes.
- Driver.UbusDriver.IoctlSubmitWr: the same exclusion of the atomic opcodes.
- Undefined behaviour of the C code is an outcome that changes nothing in the model; what a real machine does after it is not described.
- Permissions in the C backend: stored, never read.
- Latency and bandwidth figures of the C stack, its error texts, and the CRC and CIP error counters, which nothing increments.
- Driver calls are modelled one at a time; only `ub_silicon_process_wr` and the registrations are interleaved (SiliconThreads). Jetty creation is not among the interleaved calls, as work requests of the backend do not read jetties.
- A node's lock is modelled by the atomicity of its sections, the fabric lock by that of registrations.
- The read-only ioctls (device information, statistics) and the ioctls without a case.
- urma_unregister_segment, urma_destroy_jetty and obmm_release_pool: the driver has no case for their ioctls, so they only free host memory.
- Allocation failures in the libraries, and host buffers that overlap.
- Obmm.PoolIsOneArray: pools and other segments longer than the 1 MB stride share bytes with their neighbours (`Aperture.LongSegmentsAlias`) and are excluded, as are more than 2^32 ids. Writes longer than the staging window and handles imported once the jetty table is full end in the undefined outcome.
- Obmm.HandlesShareOneArray: the same exclusions.
- Ring: the demonstrator adds nothing up, and its schedule's paths carry no data beyond one hop; the lemmas on paths are about indices.
- RingRun.RingAllReduce: simulated latencies are left out; the number of ranks and the tensor size, constants in the source, are any that fit the 64 handles and the aperture.
- libcdma, the other demonstrators, ub_socket_server.c and the Python HCCL collectives: they add calls of what is modelled, or input and output.

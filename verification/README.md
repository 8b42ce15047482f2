# Verified model of vlan-connect

vlan-connect carries the packets of a virtual LAN through a relay. This project models the parts of
it whose correctness is not visible in any single function, and proves what they are for. Each part
keeps the shape of its source: classes with the same fields, methods that change them, loops over
buffers in place. Each such method is proved against a specification on values, and the properties
are proved about the specifications.

1. **Erasure code** (`Gf256*`, `Cauchy`, `Cm256*`, `CodeWords`, `Fec*`). The field GF(256) with
   polynomial 0x14d, its tables and bulk kernels, the systematic Cauchy code with its in-place L D U
   factorisation and elimination sweeps, and the grouping layer on top. Main results:
   `Cm256Decoder.Decode`, any N of the N + M blocks give back all originals; `CodeWords.WordExists`
   and `WordUnique`, any N blocks at all belong to exactly one code word, so decoding cannot fail;
   `FecReceiver.FecDecoder.AddPacket`, an exact specification for any bytes under the byte budget;
   and `FecDelivery.Delivered`, which payloads are emitted, each once, when the packets of any
   number of groups arrive interleaved among other traffic.
2. **KCP** (`Kcp*`). One endpoint as a class, two endpoints and a lossy, duplicating, reordering
   network as a state machine. Main results: `KcpNetwork.EndToEnd`, `NothingLost`, `NeverWedged`
   for what never goes wrong, `KcpFlush` and `KcpProgress.RoundDelivers` for what is achieved.
   Sequence numbers are unbounded in the model; `KcpWire` proves that the signed 32-bit comparison
   sees the same, within half the number space.
3. **Poly1305 and BLAKE2b** (`Poly1305*`, `Blake2bStream`). Limb arithmetic without overflow, and
   independence of the chunks of a message.
4. **Secure frames** (`SecureFrame`). The 2048-bit ring stands for the unbounded set of accepted
   counters, and no two frames share a key and a nonce (`NoSharedNonce`).
5. **Rooms** (`SignalState`, `SignalTerms`, `SignalServer`, `SignalExpiry`, `SignalHosts`, `RoomList`, `RoomReplica`, `RoomReplication`,
   `RoomWire`, `SignalValidator`, `RoomPages`, `RoomDeltas`, `SendBuffers`). Identity safety across login,
   takeover, resume, expiry, logout and rollback is part of the invariant that every handler of the
   server class keeps (`SignalState.Identity` says what it means), and so is that the published room
   list is the current one. Every send may end the connection it goes to, also in the middle of a
   sweep over the leases, and the outcome of each handler says what that leads to. What a login, a
   resumption, a join, a leave and an expiry mean is said in `SignalTerms` and `SignalExpiry` of leases,
   sessions and the list themselves. The replicated
   list is proved over every run, down to the bytes of its pages and deltas and the messages a full
   send buffer drops.
6. **Raw UDP tunnel** (`RawUdp*`). Fragmentation and reassembly with exact byte accounting and eviction.

Where the code does less than one might expect, the model follows the code:

- `gf256_mul_mem` writes nothing when the factor is 1, also out of place. `Gf256Kernels.MulMem` says
  so and every caller is shown safe (`Cauchy.ElementIsProper` for the one call out of place).
- The error correction layer drops empty payloads (`FecGroups.PaddedPayload`).
- An oversized room-list delta would raise the revision without publishing
  (server/src/signal_server.cpp, lines 2093-2109).
  `RoomReplica.PublishMeets` gives the exact condition, and `RoomList.DeltaFits` shows that it cannot
  arise under the limits of 128 rooms and 63-byte names.
- KCP compares numbers by the sign of a 32-bit difference. `KcpWire.TimeDiffExact` and
  `TimeDiffOrders` say exactly for which numbers that is right; half the number space ahead is the
  first that looks like the past (`TimeDiffWraps`).
- The branch of the error correction decoder for a decode that fails (client-cli/src/cli_fec.cpp,
  lines 217-221) is never taken, not even for forged packets or a reused group id: by
  `CodeWords.WordExists` there is always a code word to decode to.

The table of session states (server/src/room.h, lines 87-110) lets requests to create or join a room
through only in the state LoggedIn; that is the precondition of those two handlers.

`Collections` and `Numbers` hold what several parts need: sums over maps, sizes of sets, big-endian
numbers. `dafny verify dfyconfig.toml` verifies the whole project. In the table below, a row that
begins with "helper" states a small fact that the others use.

## Model

| member | source | states |
|---|---|---|
| Gf256Bits.Order | 3rdparty/cm256cc/gf256.cpp:34-57 | 2 has order 255 modulo the polynomial 0x14d: no smaller positive exponent gives 1 |
| Gf256Bits.Generates | 3rdparty/cm256cc/gf256.cpp:65-96 | every one of the 255 nonzero bytes is a power of 2, so the walk of the table construction reaches all of them |
| Gf256.MulTwo | 3rdparty/cm256cc/gf256.cpp:65-83 | the product with 2 is the shift, reduced by 0x14d; with the field laws it determines every product |
| Gf256.MulAssoc | 3rdparty/cm256cc/gf256.h:148-153 | multiplication through logarithms is associative |
| Gf256.MulInv | 3rdparty/cm256cc/gf256.h:161-166 | every nonzero byte times its inverse is 1 |
| Gf256.MulAdd | 3rdparty/cm256cc/gf256.h:141-153 | multiplication distributes over exclusive or: the bytes are a field |
| Gf256Tables.Gf256Ctx.constructor | 3rdparty/cm256cc/gf256.cpp:291-314 | after construction all tables hold the field operations |
| Gf256Tables.Gf256Ctx.ExpLogInit | 3rdparty/cm256cc/gf256.cpp:65-96 | the logarithm table inverts the exponent table on all nonzero bytes |
| Gf256Tables.Gf256Ctx.LogsComplete | 3rdparty/cm256cc/gf256.cpp:71-83 | no logarithm of a nonzero byte is left unwritten |
| Gf256Tables.Gf256Ctx.ExpTail | 3rdparty/cm256cc/gf256.cpp:82-95 | exponents up to twice the period need no reduction; the entries zero is mapped to are 0 |
| Gf256Tables.Gf256Ctx.MulDivInit | 3rdparty/cm256cc/gf256.cpp:103-139 | every entry of the product and quotient tables is the product and quotient of its row and column, with 0 for a zero divisor |
| Gf256Tables.Gf256Ctx.InvInit | 3rdparty/cm256cc/gf256.cpp:146-152 | every entry of the inverse table is the inverse |
| Gf256Tables.Gf256Ctx.MulAddMemInit | 3rdparty/cm256cc/gf256.cpp:247-269 | the nibble tables hold the products of the low and the high half of a byte |
| Gf256Tables.Gf256Ctx.Product | 3rdparty/cm256cc/gf256.h:148-153 | helper: the table lookup gives the field product |
| Gf256Tables.Gf256Ctx.Quotient | 3rdparty/cm256cc/gf256.h:155-159 | helper: the table lookup gives the field quotient, 0 for a zero divisor |
| Gf256Tables.Gf256Ctx.Inverse | 3rdparty/cm256cc/gf256.h:161-166 | helper: the table lookup gives the field inverse |
| Gf256Kernels.SimdLane | 3rdparty/cm256cc/gf256.cpp:331-372 | the two nibble lookups of a SIMD lane add up to the product |
| Gf256Kernels.AddMem | 3rdparty/cm256cc/gf256.cpp:486-562 | for every length the 64/16/8/4/1-byte cascade adds the source pointwise and leaves the rest of the buffer |
| Gf256Kernels.Add2Mem | 3rdparty/cm256cc/gf256.cpp:564-623 | the same for z += x + y |
| Gf256Kernels.AddSetMem | 3rdparty/cm256cc/gf256.cpp:625-705 | the same for z = x + y |
| Gf256Kernels.MulByTable | 3rdparty/cm256cc/gf256.cpp:331-398 | for every length and factor the table cascade multiplies pointwise |
| Gf256Kernels.MulMem | 3rdparty/cm256cc/gf256.cpp:319-398 | with factor 1 nothing is written, so the product is in z only if the call was in place; otherwise z is the pointwise product |
| Gf256Kernels.MulAddMem | 3rdparty/cm256cc/gf256.cpp:400-484 | for every length and factor, z += x * y pointwise, also for the factors 0 and 1 that are special cases |
| Gf256Kernels.DivMem | 3rdparty/cm256cc/gf256.h:179-183 | in place, division of every byte by y |
| Cauchy.ElementIsProper | 3rdparty/cm256cc/cm256.cpp:150-175 | in an encoder row past the first no element is 0 or 1, so the first product of cm256_encode_block, which is out of place, never meets the factor that copies nothing |
| Cauchy.PivotNonzero | 3rdparty/cm256cc/cm256.cpp:343-356 | every pivot of the factorisation is nonzero |
| Cauchy.PivotsNonzero | 3rdparty/cm256cc/cm256.cpp:343-396 | every value the factorisation divides by is nonzero |
| Cauchy.BlockIdentity | 3rdparty/cm256cc/cm256.cpp:343-378 | the rational identity behind one elimination step on a Cauchy matrix |
| Cauchy.SchurStep | 3rdparty/cm256cc/cm256.cpp:343-378 | one update of the generators g and b gives the Schur complement of the matrix left over |
| Cauchy.LduIsCauchy | 3rdparty/cm256cc/cm256.cpp:313-420 | the product L D U is, element by element, (x0 + yj) / (xi + yj) on received rows and erased columns |
| Cauchy.RowSumIsResidual | 3rdparty/cm256cc/cm256.cpp:430-447 | once the received originals are taken out of a recovery row, what is left is the Cauchy system of the missing originals |
| Cauchy.LowerStep | 3rdparty/cm256cc/cm256.cpp:473-489 | subtracting L times the pivot row eliminates one more unknown below |
| Cauchy.UpperStep | 3rdparty/cm256cc/cm256.cpp:503-517 | adding U times a solved unknown removes its term above |
| Cauchy.Solved | 3rdparty/cm256cc/cm256.cpp:503-517 | with all later terms removed a row is the missing original itself |
| Cm256Factor.PackedSizes | 3rdparty/cm256cc/cm256.cpp:449-471 | the two packed triangles and the diagonal fill exactly n * n bytes |
| Cm256Factor.UpperDistinct | 3rdparty/cm256cc/cm256.cpp:387-396 | no two elements of U share a packed position |
| Cm256Factor.GenerateLDUDecomposition | 3rdparty/cm256cc/cm256.cpp:313-420 | the arrays hold L by columns, D, and U in the bottom-up order in which Decode reads it |
| Cm256.Encoder.EncodeBlock | 3rdparty/cm256cc/cm256.cpp:121-176 | a recovery block is a copy, the parity of all originals, or the Cauchy combination of its row, for every block length |
| Cm256.Encoder.Encode | 3rdparty/cm256cc/cm256.cpp:178-207 | all recovery blocks stand end to end in the buffer, or an error code tells which parameter is bad |
| Cm256Decoder.Decoder.Initialize | 3rdparty/cm256cc/cm256.cpp:224-277 | originals and recovery blocks are filed in order, the missing indices are the ascending complement, and a repeated original is refused |
| Cm256Decoder.DecodeM1 | 3rdparty/cm256cc/cm256.cpp:279-311 | one recovery row of ones and all other originals give the missing original, summed two at a time |
| Cm256Decoder.LowerSweep | 3rdparty/cm256cc/cm256.cpp:473-489 | after the sweep the recovery rows are the triangle D U times the missing originals |
| Cm256Decoder.DiagonalSweep | 3rdparty/cm256cc/cm256.cpp:491-501 | after the division the rows are U times the missing originals, and each block is renamed to the original it stands for |
| Cm256Decoder.UpperSweep | 3rdparty/cm256cc/cm256.cpp:503-517 | after the sweep each recovery block is the original it is named for |
| Cm256Decoder.EliminateOriginals | 3rdparty/cm256cc/cm256.cpp:430-447 | every received original has been taken out of every recovery row |
| Cm256Decoder.Solve | 3rdparty/cm256cc/cm256.cpp:422-520 | the recovery blocks become the missing originals, in place |
| Cm256Decoder.Decode | 3rdparty/cm256cc/cm256.cpp:522-571 | for any N of the N + M blocks of one encoder, with different indices, the result is 0 and the blocks hold every original exactly once, byte for byte; a repeated original gives -5, bad parameters -1, -2, -3 |
| Cm256Decoder.AllIndices | 3rdparty/cm256cc/cm256.cpp:522-571 | the indices left in the blocks are a permutation of the originals |
| CodeWords.Solvable | 3rdparty/cm256cc/cm256.cpp:422-520 | the elimination of Decode is invertible: for every right-hand side, honest or not, there are missing originals that give it |
| CodeWords.UniqueSolution | 3rdparty/cm256cc/cm256.cpp:422-520 | and only one choice of missing originals does |
| CodeWords.WordExists | 3rdparty/cm256cc/cm256.cpp:121-176 | any N blocks of one size with different indices, whoever made them, are blocks of some code word; so cm256_decode never meets a system it cannot solve |
| CodeWords.WordUnique | 3rdparty/cm256cc/cm256.cpp:121-176 | and of one code word only: the code is maximum distance separable |
| FecGroups.HeadersPass | client-cli/src/cli_fec.cpp:32-103 | helper: every header the encoder writes for a group of at most ten payloads passes the checks of the decoder |
| FecGroups.PaddedPayload | client-cli/src/cli_fec.cpp:116-123 | helper: framing keeps a payload exactly if it is not empty and its length fits 16 bits; an empty one is dropped |
| FecGroups.GroupDelivery | client-cli/src/cli_fec.cpp:125-244 | for every order of arrival with duplicates no original is emitted twice, nothing else is emitted, an original that has arrived is emitted, and all are once as many different blocks have arrived as there are originals |
| FecGroups.RecoveryMeans | common/protocol.h:400-412 | the number of recovery blocks of each mode: 10, 30, 50 or 70 percent of the payloads rounded up, all of them, or twice as many, and at least one |
| FecGroups.LossSurvived | client-cli/src/cli_fec.cpp:125-244 | whatever is lost of a group, if it is no more packets than it has recovery blocks, every payload is emitted |
| FecStream.FecEncoder.AddPacket | client-cli/src/cli_fec.cpp:20-30 | payloads are kept until there are ten, which then go out as one group |
| FecStream.FecEncoder.Flush | client-cli/src/cli_fec.cpp:32-103 | the output grows by exactly the packets of one group of the erasure code, originals first, in blocks that just hold the longest payload, and the group id moves on modulo 256 |
| FecStream.GroupLayout | client-cli/src/cli_fec.cpp:39-99 | the bytes of every packet of a group: its four header bytes, and for a payload the length, highest byte first, the payload and zeros |
| FecTable.Word | client-cli/src/cli_fec.cpp:184-233 | helper: the blocks stored in a group, also forged or mixed ones, belong to a code word |
| FecTable.WordOfSender | client-cli/src/cli_fec.cpp:184-233 | a complete group whose blocks come from one sender has that sender's originals and no others |
| FecTable.EvictMakesRoom | client-cli/src/cli_fec.cpp:268-282 | eviction makes room, under 32 groups and 262144 bytes, for every block that fits the budget alone |
| FecTable.EvictsOldest | client-cli/src/cli_fec.cpp:268-282 | no group that is evicted is newer than one that stays |
| FecTable.EvictsOnlyIfNeeded | client-cli/src/cli_fec.cpp:268-282 | with the last evicted group still there the block would not have fitted |
| FecTable.AgeElapsed | client-cli/src/cli_fec.cpp:246-254 | the age of a group is the time that has passed since it was opened, also when the 32-bit clock has wrapped |
| FecTable.ProcessMeans | client-cli/src/cli_fec.cpp:125-165 | a malformed packet, a known block and a block of a complete group change nothing; a packet that contradicts its group drops the group; nothing is emitted |
| FecTable.ProcessOpens | client-cli/src/cli_fec.cpp:151-175 | with room, the first packet of a group opens it with its header, its block and its time |
| FecTable.EmissionOfSender | client-cli/src/cli_fec.cpp:125-244 | what a block makes the decoder emit is the same for every code word the stored blocks can be read as |
| FecTable.ProcessKeeps | client-cli/src/cli_fec.cpp:125-182 | no bytes break the groups: block sizes, the originals marked as emitted, and that a group is decoded exactly when it has as many blocks as originals |
| FecReceiver.FecDecoder.RemoveGroup | client-cli/src/cli_fec.cpp:256-266 | whatever is stored, the byte count stays the sum of it; the saturating subtraction never saturates |
| FecReceiver.FecDecoder.EnsureCapacity | client-cli/src/cli_fec.cpp:268-282 | whatever is stored, succeeds exactly when the block alone fits the budget, terminates, and evicts exactly what Evict says |
| FecReceiver.FecDecoder.Cleanup | client-cli/src/cli_fec.cpp:246-254 | exactly the groups that are more than 500 milliseconds old on the 32-bit clock go |
| FecReceiver.FecDecoder.EmitOriginalBlock | client-cli/src/cli_fec.cpp:116-123 | hands on the payload behind the length, or nothing if the length is zero or too large |
| FecReceiver.FecDecoder.TryDecode | client-cli/src/cli_fec.cpp:184-244 | for stored blocks of any origin cm256_decode succeeds, and exactly the originals not emitted yet are emitted, in order |
| FecReceiver.FecDecoder.AddPacket | client-cli/src/cli_fec.cpp:125-182 | for any bytes, eviction, clashes and forged blocks included, groups and output become exactly what Process says, and the byte count stays exact and under its cap |
| FecDelivery.TakeStep | client-cli/src/cli_fec.cpp:155-182 | one genuine packet is one arrival at its group: the stored blocks stay the sender's, and the payloads emitted are those GroupDelivery counts |
| FecDelivery.Delivered | client-cli/src/cli_fec.cpp:125-244 | over any run, with the packets of any number of groups interleaved in any order with duplicates, and malformed packets, packets of other groups and cleanups in between, the output on these groups is the payloads of a list that has no original twice, and has an original exactly when its own block or as many different blocks as there are originals have arrived |
| FecDelivery.NothingElse | client-cli/src/cli_fec.cpp:125-244 | if all acceptable packets are of these groups, the decoder emits nothing else |
| KcpWire.TimeDiffOfResidues | 3rdparty/kcp/ikcp.c:136-139 | the signed 32-bit comparison depends on the words only, so it may be read on unbounded numbers |
| KcpWire.TimeDiffExact | 3rdparty/kcp/ikcp.c:136-139 | it is the true difference if and only if that is at least minus half the number space and less than half of it |
| KcpWire.TimeDiffOrders | 3rdparty/kcp/ikcp.c:136-139 | its sign is right if and only if the difference lies in an even half of the number space exactly when it is not negative |
| KcpWire.TimeDiffWraps | 3rdparty/kcp/ikcp.c:136-139 | the first point where both fail: half the number space ahead looks like the past |
| KcpWire.UnwrapExact | 3rdparty/kcp/ikcp.c:136-139 | a number near the base is recovered from its 32-bit word |
| KcpWire.HeaderLayout | 3rdparty/kcp/ikcp.c:911-924 | the 24 bytes of a header, one by one |
| KcpWire.RoundTrip | 3rdparty/kcp/ikcp.c:756-876 | ikcp_input decodes an encoded datagram to exactly its segments, with result 0 |
| Kcp.DropBelowExact | 3rdparty/kcp/ikcp.c:600-614 | inside the number window exactly the entries below una are dropped |
| Kcp.RemoveSnExact | 3rdparty/kcp/ikcp.c:578-598 | inside the number window exactly the acknowledged entry is dropped |
| Kcp.InsertSorted | 3rdparty/kcp/ikcp.c:690-722 | the receive buffer stays sorted, keeps its entries, gains at most the new one, and ignores a repeat |
| Kcp.FragmentsMerge | 3rdparty/kcp/ikcp.c:509-543 | the fragments of a message count down to 0, fit the segment size and merge back to the message |
| Kcp.FragmentsCount | 3rdparty/kcp/ikcp.c:509-518 | the count ikcp_send computes is the number of fragments |
| KcpQueues.SendKeeps | 3rdparty/kcp/ikcp.c:469-544 | the queue invariants survive any ikcp_send |
| KcpQueues.RecvKeeps | 3rdparty/kcp/ikcp.c:358-436 | the queue invariants survive any ikcp_recv |
| KcpQueues.InputKeeps | 3rdparty/kcp/ikcp.c:756-907 | no datagram, also a malformed or forged one, breaks the queue invariants: sorted buffers inside their windows, snd_nxt - snd_una <= snd_wnd, nrcv_que <= rcv_wnd |
| KcpQueues.FlushKeeps | 3rdparty/kcp/ikcp.c:938-1145 | helper: the queue invariants survive any flush, whatever the timers say |
| KcpQueues.BuffersBounded | 3rdparty/kcp/ikcp.c:690-739 | neither buffer grows past its window |
| KcpPacking.DatagramsPack | 3rdparty/kcp/ikcp.c:963-1121 | the datagrams of a flush carry every segment once and in order, whole, and none is longer than the mtu |
| KcpPacking.DatagramDecodes | 3rdparty/kcp/ikcp.c:756-876 | each datagram of a flush is at most mtu bytes and decodes to exactly its segments with result 0 |
| KcpStream.PeekHead | 3rdparty/kcp/ikcp.c:441-464 | ikcp_peeksize tells the length of a complete head message and -1 otherwise |
| KcpStream.RecvHead | 3rdparty/kcp/ikcp.c:358-436 | every result code of ikcp_recv, and the bytes of the message it returns |
| KcpEndpoint.KcpCb.constructor | 3rdparty/kcp/ikcp.c:234-296 | a new control block has empty queues, numbers from 0, a remote window of 128, and consistent counters |
| KcpEndpoint.KcpCb.Send | 3rdparty/kcp/ikcp.c:469-544 | a message that needs fewer than 128 fragments joins the queue in fragments that count down to 0, full but for the last; a longer one is refused and changes nothing; the loop has the effect of the specification Send |
| KcpEndpoint.KcpCb.Peek | 3rdparty/kcp/ikcp.c:441-464 | the loop computes PeekSize |
| KcpEndpoint.KcpCb.Recv | 3rdparty/kcp/ikcp.c:358-436 | merging and moving from the buffer have the effect of the specification Recv; the window is announced exactly when the queue stops being full |
| KcpEndpoint.KcpCb.ParseUna | 3rdparty/kcp/ikcp.c:600-614 | the loop drops the same entries as DropBelow |
| KcpEndpoint.KcpCb.ParseAck | 3rdparty/kcp/ikcp.c:578-598 | the loop drops the same entry as RemoveSn, under the same guards |
| KcpEndpoint.KcpCb.ShrinkBuf | 3rdparty/kcp/ikcp.c:567-576 | snd_una becomes the first number in the buffer, or snd_nxt |
| KcpEndpoint.KcpCb.AckPush | 3rdparty/kcp/ikcp.c:644-678 | every acknowledgement joins the list once, at its end |
| KcpEndpoint.KcpCb.ParseData | 3rdparty/kcp/ikcp.c:690-739 | the search from the back inserts where Insert does, and ready segments move up |
| KcpEndpoint.KcpCb.Input | 3rdparty/kcp/ikcp.c:756-907 | the parsing loop has the effect and the result code of the specification Input on any bytes |
| KcpEndpoint.KcpCb.Flush | 3rdparty/kcp/ikcp.c:938-1145 | the queue moves to the send buffer in order until it is empty or a window is reached, and never beyond; every new or due segment is counted as sent; the datagrams carry exactly one segment per pending acknowledgement, the probes that are due, and each new or due segment once with its number, fragment and data; the output callback gets their encodings |
| KcpFlush.FlushFills | 3rdparty/kcp/ikcp.c:1023-1121 | what a flush does to the control block, said without the functions that compute it |
| KcpFlush.FlushSends | 3rdparty/kcp/ikcp.c:962-1121 | which segments its datagrams carry, said likewise; each datagram holds whole segments and respects the mtu |
| KcpEndpoint.SendQueues | 3rdparty/kcp/ikcp.c:469-544 | which messages ikcp_send takes, and what the queue then holds |
| KcpNetwork.RunKeeps | 3rdparty/kcp/ikcp.c:358-1145 | under any loss, duplication and reordering of datagrams the invariant of both directions holds after every run of sends, receives, flushes and deliveries |
| KcpNetwork.EndToEnd | 3rdparty/kcp/ikcp.c:358-1145 | each user has received a prefix of the messages the other user sent, boundaries and bytes preserved |
| KcpNetwork.NothingLost | 3rdparty/kcp/ikcp.c:567-614 | a segment leaves the send buffer, by ACK or by UNA, only if the receiver holds it already |
| KcpNetwork.RecvMeans | 3rdparty/kcp/ikcp.c:358-436 | ikcp_recv returns the next message of the other user if it is complete and fits, and otherwise says why not |
| KcpNetwork.NeverWedged | 3rdparty/kcp/ikcp.c:358-436 | a full receive queue always holds a complete message, which ikcp_recv returns to a buffer that is large enough |
| KcpNetwork.AllDelivered | 3rdparty/kcp/ikcp.c:358-1145 | once both sides are empty every accepted message has been received |
| KcpNetwork.AheadBounded | 3rdparty/kcp/ikcp.c:1023-1049 | the sender is never ahead of the receiver by more than both windows |
| KcpProgress.HandleAllReceives | 3rdparty/kcp/ikcp.c:756-907 | whatever fresh datagram arrives at whatever moment: every pushed segment inside the receive window is then held and acknowledged with its number and time stamp, nothing held is lost, a window probe is remembered, and the remote window is the one announced last |
| KcpProgress.Acknowledged | 3rdparty/kcp/ikcp.c:567-614 | a fresh segment takes out of the send buffer exactly the entries below its una and, if it is an acknowledgement, the one it names |
| KcpProgress.DueArrives | 3rdparty/kcp/ikcp.c:938-1121 | after a flush whose datagrams arrive, every new or due segment below the edge of the receive window is at the receiver, and its acknowledgement is pending |
| KcpProgress.RoundArrives | 3rdparty/kcp/ikcp.c:938-1121 | if nothing holds the sender back, one flush and its delivery leave the stream of all accepted messages at the receiver |
| KcpProgress.ReadAll | 3rdparty/kcp/ikcp.c:358-436 | a receiver that has got the whole stream returns exactly the messages accepted, in order, one by one |
| KcpProgress.RoundDelivers | 3rdparty/kcp/ikcp.c:358-1145 | progress: after flush, delivery, flush of the other side and delivery without loss, with open windows, the sender has nothing left and reading returns every accepted message |
| KcpProgress.FirstMessage | 3rdparty/kcp/ikcp.c:358-1145 | in particular the first message between two new control blocks, with a window for its fragments, is read by the other user |
| KcpProgress.ProbeAnswered | 3rdparty/kcp/ikcp.c:978-1021 | a sender whose peer closed its window learns the free window of the peer from one probe |
| Poly1305.ColumnBounds | 3rdparty/monocypher/monocypher.c:329-342 | no column sum overflows 64 bits and no product by s4 overflows 32 bits |
| Poly1305.Product | 3rdparty/monocypher/monocypher.c:329-342 | the column sums are the product of the sum and the multiplier up to a multiple of 2^130-5 |
| Poly1305.Carry | 3rdparty/monocypher/monocypher.c:344-357 | the carries keep the value modulo 2^130-5 and leave a top limb of at most 4 |
| Poly1305.Block | 3rdparty/monocypher/monocypher.c:329-358 | one block step is (h + c + end * 2^128) * r modulo 2^130-5, with a top limb of at most 4 |
| Poly1305Stream.Poly1305Ctx.Init | 3rdparty/monocypher/monocypher.c:366-375 | loads the clamped key and the pad, with nothing absorbed |
| Poly1305Stream.Poly1305Ctx.PolyBlocks | 3rdparty/monocypher/monocypher.c:310-364 | the accumulator becomes the polynomial of the blocks folded in, for any number of blocks |
| Poly1305Stream.Poly1305Ctx.Update | 3rdparty/monocypher/monocypher.c:377-411 | absorbing a message extends what has been absorbed by it, whatever is buffered: the chunks do not matter |
| Poly1305Stream.Poly1305Ctx.Final | 3rdparty/monocypher/monocypher.c:413-440 | the 16 bytes are the tag of section 2.5 of RFC 8439 of everything absorbed |
| Poly1305Stream.FinalValue | 3rdparty/monocypher/monocypher.c:424-438 | the conditional subtraction gives the canonical remainder, and the words its sum with the pad modulo 2^128 |
| Poly1305Example.ExampleTag | 3rdparty/monocypher/monocypher.c:366-440 | the definition of the tag gives the value of the example in section 2.5.2 of RFC 8439 |
| Blake2bStream.OffsetStep | 3rdparty/monocypher/monocypher.c:478-484 | the two-word byte counter counts modulo 2^128 |
| Blake2bStream.WordsAre | 3rdparty/monocypher/monocypher.c:131-133 | a block is read as words with the lowest byte first |
| Blake2bStream.DigestOne | 3rdparty/monocypher/monocypher.c:626-636 | a message of at most one block is compressed once, padded with zeros, as the last block under its own length |
| Blake2bStream.DigestTwo | 3rdparty/monocypher/monocypher.c:558-636 | of a longer one the first block is compressed as no last block, counted by its 128 bytes |
| Blake2bStream.Blake2bCtx.Init | 3rdparty/monocypher/monocypher.c:530-551 | with a key its padded block is buffered, so it counts as the first block of the message |
| Blake2bStream.Blake2bCtx.Compress | 3rdparty/monocypher/monocypher.c:461-528 | the buffered bytes are counted once and mixed in with the last-block flag |
| Blake2bStream.Blake2bCtx.FillWords | 3rdparty/monocypher/monocypher.c:579-615 | whole words are loaded where the buffered bytes end, so the load never starts in the middle of a block |
| Blake2bStream.Blake2bCtx.Update | 3rdparty/monocypher/monocypher.c:558-624 | the context is a function of all bytes absorbed: update(a), update(b) is update(a ++ b) |
| Blake2bStream.Blake2bCtx.Final | 3rdparty/monocypher/monocypher.c:626-636 | the digest is the chain of section 3.3 of RFC 7693 over everything absorbed, cut to the hash size |
| SecureFrame.RingAdd | common/secure_frame.h:337-363 | setting the bit of a counter of the window adds it to the set the ring stands for |
| SecureFrame.RingNext | common/secure_frame.h:337-363 | clearing one bit moves the window up by one |
| SecureFrame.NoReplay | common/secure_frame.h:337-363 | over any run no counter is accepted twice |
| SecureFrame.NonceInjective | common/secure_frame.h:330-335 | different counters give different nonces |
| SecureFrame.OpenSeal | common/secure_frame.h:288-328 | a sealed frame opens to its plaintext |
| SecureFrame.KeysPair | common/secure_frame.h:244-286 | helper: the keys and nonce seeds one side sends with are those the other side receives with |
| SecureFrame.LabelsDiffer | common/secure_frame.h:244-258 | the four labels of a context differ from each other and from those of every other context |
| SecureFrame.NoSharedNonce | common/secure_frame.h:244-302 | if derivation has no collisions, two frames under one master secret are sealed with the same key and nonce only if side, context and counter are the same; a side never receives with the key it sends with |
| SecureFrame.SecureFrameCipher.Init | common/secure_frame.h:244-286 | each key and nonce seed is derived under the label of its context, direction and use, by role; the same keys leave counters, seeds and window as they are, new keys reset them |
| SecureFrame.SecureFrameCipher.Encrypt | common/secure_frame.h:288-302 | a frame is the counter, highest byte first, and the text sealed under the counter and the seed; each frame uses a nonce not used before under the same init; the last counter is never used |
| SecureFrame.SecureFrameCipher.IsCounterAllowed | common/secure_frame.h:365-372 | true exactly for a counter above the maximum, or less than 2048 below it and not accepted before |
| SecureFrame.SecureFrameCipher.RecordCounter | common/secure_frame.h:337-363 | accepts exactly the counters that isCounterAllowed allows, and the ring then stands for one more |
| SecureFrame.SecureFrameCipher.Decrypt | common/secure_frame.h:304-328 | a frame is accepted exactly if it authenticates under the counter it shows and that counter is above the maximum, or less than 2048 below it and not accepted before; it is then accepted; a refused frame changes nothing |
| SecureFrame.SealedOnce | common/secure_frame.h:288-328 | a frame from the peer is accepted at most once and gives the plaintext that was sealed |
| RoomList.MapOfListing | server/src/signal_server.cpp:2004-2022 | the listing in key order is the map |
| RoomList.ChangesApply | server/src/signal_server.cpp:2075-2111 | the operations of a delta lead from the published rooms to the current ones |
| RoomList.NoChanges | server/src/signal_server.cpp:2075-2091 | there is nothing to publish exactly when nothing changed |
| RoomList.ChangesNeeded | server/src/signal_server.cpp:2075-2091 | a delta names only rooms that differ: as they now are, or gone |
| RoomList.DeltaFits | server/src/signal_server.cpp:2105-2109 | with at most 128 rooms and names of at most 63 bytes a delta always fits its payload budget |
| RoomList.PagesPack | server/src/signal_server.cpp:2040-2057 | pages carry every room once and in order, split none and respect the payload budget |
| RoomList.NoRepeats | client-cli/src/cli_net.cpp:691-701 | no room of one page is on a page before it |
| RoomReplica.PublishMeets | server/src/signal_server.cpp:2075-2111 | after a broadcast the published rooms are the current ones if and only if nothing changed or the delta fitted its budget |
| RoomReplica.RoomPublisher.Broadcast | server/src/signal_server.cpp:2075-2111 | the two loops send the delta of the specification, under consecutive revisions |
| RoomReplica.RoomPublisher.ListRooms | server/src/signal_server.cpp:2040-2073 | the pages of the specification, numbered, under the current revision |
| RoomReplica.RoomListClient.OnPage | client-cli/src/cli_net.cpp:670-714 | a page that continues the snapshot is taken, one that does not or that repeats a room discards it and asks again |
| RoomReplica.RoomListClient.OnPush | client-cli/src/cli_net.cpp:715-741 | a delta on the revision held is applied, any other discards the snapshot and asks again |
| RoomReplication.ChangeKeeps | server/src/signal_server.cpp:2075-2124 | after every handler the published rooms are the collected rooms, and what is on the channel stays true |
| RoomReplication.NoFalseRepeat | client-cli/src/cli_net.cpp:691-701 | an honest page that continues the snapshot is never taken for a repeat |
| RoomReplication.ReplicaIsHistory | client-cli/src/cli_net.cpp:670-741 | in every run with any dropped pages and deltas and any reconnects, a client that holds a revision holds the rooms published under it |
| RoomReplication.CurrentStaysCurrent | client-cli/src/cli_net.cpp:715-741 | a current client that gets the next delta is current again |
| RoomWire.ItemAtMeans | common/signal_message_validator.h:267-286 | a room stands at a position exactly when its encoding does and its fields are acceptable |
| RoomWire.PageInMeans | common/signal_message_validator.h:443-479 | a payload is a page exactly when it is the encoding of an acceptable page |
| RoomWire.ItemLayout | server/src/signal_server.cpp:2024-2038 | the bytes of a room in their order |
| RoomWire.PageLimits | common/signal_message_validator.h:443-479 | every limit a page has to meet to be accepted, and no others |
| SignalValidator.Cursor.ReadNumber | common/signal_message_validator.h:58-98 | reads the big-endian value, or fails and records where the data was cut off, keeping the first error |
| SignalValidator.Cursor.ReadString | common/signal_message_validator.h:106-125 | succeeds exactly for a length inside the bounds whose bytes are there |
| SignalValidator.Cursor.ReadPolicy | common/signal_message_validator.h:138-153 | succeeds exactly for a valid traffic policy |
| SignalValidator.Cursor.ReadRoomListItem | common/signal_message_validator.h:267-286 | succeeds exactly when an acceptable room stands at the cursor, and moves past it |
| SignalValidator.ValidateRoomList | common/signal_message_validator.h:443-479 | accepts exactly the payloads that are encodings of acceptable pages: no other bytes and all of those |
| RoomPages.ByteBuffer.WriteU64 | common/byte_buffer.h:53-56 | writes the eight big-endian bytes |
| Numbers.NumberAt | common/byte_buffer.h:41-56 | each byte of a number written is its digit to base 256, the highest first |
| RoomPages.ByteBuffer.ReadNumber | common/byte_buffer.h:68-98 | reads the big-endian value or fails when it would read beyond the end |
| RoomPages.ByteBuffer.ReadTrafficPolicy | client-cli/src/cli_net.cpp:300-301 | reads three bytes and makes them a valid policy |
| RoomPages.StaysNormal | common/protocol.h:349-362 | helper: making the policies of an acceptable room valid does not change them |
| RoomPages.WriteRoomListItem | server/src/signal_server.cpp:2024-2038 | appends the encoding of the room |
| RoomPages.WritePage | server/src/signal_server.cpp:2061-2072 | builds the encoding of the page |
| RoomPages.ReadPage | client-cli/src/cli_net.cpp:670-702 | reads every accepted page as the page it encodes |
| RoomPages.PageIsOk | server/src/signal_server.cpp:2040-2073 | every page of a map of valid rooms is acceptable to the validator |
| RoomPages.PagesRebuild | client-cli/src/cli_net.cpp:670-714 | for every map of valid rooms with at most 65535 pages each page is at most 60000 bytes and accepted, and taking the pages in order rebuilds exactly the map, whatever the client held before |
| RoomDeltas.DeltaInMeans | common/signal_message_validator.h:481-521 | a payload is a delta exactly when it is the encoding of an acceptable delta |
| RoomDeltas.DeltaLimits | common/signal_message_validator.h:481-521 | every limit a delta has to meet to be accepted, and no others |
| RoomDeltas.ValidateDelta | common/signal_message_validator.h:481-521 | accepts exactly the payloads that are encodings of acceptable deltas: no other bytes and all of those |
| RoomDeltas.WriteDelta | server/src/signal_server.cpp:2093-2104 | builds the encoding of the delta |
| RoomDeltas.ReadDelta | client-cli/src/cli_net.cpp:715-741 | reads every accepted delta as the delta it encodes |
| RoomDeltas.ChangesFit | server/src/signal_server.cpp:2075-2091 | the operations between two maps of valid rooms are acceptable, and no two are about the same room |
| RoomDeltas.DeltaRebuilds | client-cli/src/cli_net.cpp:715-741 | every delta the server sends is at most 60000 bytes and accepted as exactly that delta, and turns the rooms published before into the rooms published with it |
| SignalState.HostHasLease | server/src/room.h:343-356 | a host that still has a lease stays; otherwise the host is the first lease holder that is online, the first of all if none is, and 0 in an empty room |
| SignalHosts.MarksKeepHosts | server/src/room.h:317-334 | losing and regaining a connection keeps the host of the room |
| SignalHosts.MembersKeepHosts | server/src/room.h:286-341 | joins and leaves keep the host of every room a holder of a lease there |
| SignalHosts.FounderHosts | server/src/signal_server.cpp:1650-1661 | the founder of a room is its host |
| SignalHosts.CleanedKeepsHosts | server/src/signal_server.cpp:416-474 | lease expiry keeps the host of every room a holder of a lease there |
| SignalState.Identity | server/src/signal_server.cpp:118-131 | helper: the server invariant means: a peer id has at most one session and one lease over all rooms, a free id has neither, and an alive session in a room holds a lease there with its own address |
| SignalState.TakenKeeps | server/src/signal_server.cpp:416-474 | a lease may go unless it seats an alive session |
| SignalState.SeatKeeps | server/src/signal_server.cpp:1779-1797 | a session without a lease may take a seat |
| SignalState.LeaveKeeps | server/src/signal_server.cpp:1906-1928 | a session may give up its seat and its lease together |
| SignalServer.AllocateIP | server/src/room.h:252-259 | the address returned is the lowest free one of the subnet; 0 only if none is free |
| SignalServer.AddressLeft | server/src/room.h:252-259 | helper: a room never runs out of addresses before it is full |
| SignalServer.ExpiresIff | server/src/signal_server.cpp:421-460 | helper: a lease expires in a cleanup exactly when it was offline, past its time, and has no live session |
| SignalServer.BroadcastIsChange | server/src/signal_server.cpp:2075-2124 | a broadcast for whatever rooms the handlers have made is a step of the runs of RoomReplication |
| SignalServer.LoseKeeps | server/src/signal_server.cpp:2303-2318 | connections lost while a message is sent to many never break the invariant |
| SignalServer.SurvivorsKept | server/src/signal_server.cpp:416-474 | one turn of the loop over the leases of a room, also when the notice of an expired lease loses connections that later leases depend on |
| SignalServer.SignalServer.AllocatePeerId | server/src/signal_server.cpp:118-125 | the smallest free id, or a new one; nobody has it |
| SignalServer.SignalServer.FindOwner | server/src/signal_server.cpp:201-213 | the session that has the id, and a stale index entry goes |
| SignalServer.SignalServer.FindClient | server/src/signal_server.cpp:215-225 | the alive session that has the id, or there is none |
| SignalServer.SignalServer.ReleasePeerId | server/src/signal_server.cpp:127-131 | the id becomes free exactly if no session has it |
| SignalServer.SignalServer.BindPeerIndex | server/src/signal_server.cpp:282-290 | always succeeds for an id that nobody else has |
| SignalServer.SignalServer.DestroyClient | server/src/signal_server.cpp:832-891 | the session goes, and its lease stays offline with its time started, unless the session has logged out |
| SignalServer.SignalServer.CleanupExpiredLeases | server/src/signal_server.cpp:416-474 | rooms and sessions become exactly what the sweep in ascending order leaves: a connection lost while a room is told of an expired lease is no live session for the leases looked at later; empty rooms go, and what is published is current |
| SignalServer.SignalServer.Connect | server/src/signal_server.cpp:694-705 | a new session waits for the hello, without keys, identity, room or anything to resume |
| SignalServer.SignalServer.Handshake | server/src/signal_server.cpp:1299-1443 | a session is authenticated only when it moves on to wait for its login, and the handshake gives it no identity |
| SignalServer.SignalServer.DisconnectOne | server/src/signal_server.cpp:823-830 | a lost connection keeps identities safe; the lease it held or waited for is offline for 120 seconds, and nothing else of the rooms changes |
| SignalServer.SignalServer.ValidateResumeLease | server/src/signal_server.cpp:336-375 | true exactly if the room has a lease of the peer with this nonzero token that is online or not past its time |
| SignalServer.SignalServer.TakeOver | server/src/signal_server.cpp:409-414 | after a takeover exactly the session with the peer id of the lease is gone; all other sessions remain as they were |
| SignalServer.SignalServer.ResumeLogin | server/src/signal_server.cpp:1515-1547 | only with the token of the lease: the session waits to resume it under its peer id, which nobody else has; the lease is offline for 120 seconds; all other sessions remain as they were |
| SignalServer.SignalServer.OnLogin | server/src/signal_server.cpp:1463-1581 | the session ends up waiting to resume if and only if the nonzero token given is that of a lease of the peer in the room that is online or not past its time; then exactly the sessions with that peer id go and that lease is offline for 120 seconds; with any other token no session and no lease is touched. It is logged in exactly with protocol version 9, a valid name nobody has and no such token, under an id that no session and no lease has |
| SignalServer.SignalServer.OnCreateRoom | server/src/signal_server.cpp:1583-1693 | the session is in a new room of its own exactly when all checks pass and the response is accepted; the published list then has that room with one player, under the next revision; otherwise list and revision are as before |
| SignalServer.SignalServer.OnJoinRoom | server/src/signal_server.cpp:1695-1730 | after lease expiry: in the room only without a password and with a token; asked for the password only if there is one; refused only without a place, a token, a challenge or a connection that takes the response; rooms and sessions are given exactly |
| SignalServer.SignalServer.OnAuthResponse | server/src/signal_server.cpp:1732-1777 | after lease expiry: in the room only with a correct answer and a token; refused only without a correct answer, a place, a token or a connection that takes the response; the challenge is used up in any case |
| SignalServer.SignalServer.CompleteJoin | server/src/signal_server.cpp:1779-1822 | in the room exactly when there is space and the response is accepted: with one more lease, under the lowest free address, and one more player in the published list under the next revision; otherwise the membership is rolled back and list and revision are as before |
| SignalServer.SignalServer.Rollback | server/src/signal_server.cpp:377-395 | takes back exactly the new membership: the lease, an emptied room, and the seat of the session |
| SignalServer.SignalServer.CompleteResume | server/src/signal_server.cpp:1824-1860 | the session is back on its lease with its address and name; if the response fails the lease stays, offline; connections lost to the notices that follow do not change the rooms |
| SignalServer.SignalServer.OnResumeRoom | server/src/signal_server.cpp:1862-1904 | a waiting session is back on its lease, online with its address and name, exactly if it asks for the lease it waits for and the token still opens it; if the response fails the lease is offline for 120 seconds; if the lease is gone the session has none; any other request changes nothing but perhaps the connection the error is sent to |
| SignalServer.SignalServer.OnLeaveRoom | server/src/signal_server.cpp:1906-1928 | exactly the lease of the session goes, with a room left empty; the published list has one player less, or the room no more, under the next revision; the session keeps its id |
| SignalServer.SignalServer.OnLogout | server/src/signal_server.cpp:1930-1988 | the lease, seated or waiting to be resumed, goes, the peer id becomes free, and no other session changes but by a lost connection |
| SignalServer.SignalServer.BroadcastRoomListPush | server/src/signal_server.cpp:2075-2124 | afterwards the published list has exactly the rooms, each with the number of its leases as players and its own name, limit, policies, password flag and mtu; the revision rises by one exactly if that is a change |
| SignalServer.SignalServer.OnListRooms | server/src/signal_server.cpp:2126-2136 | after lease expiry, the pages of the published list, which shows every room as it is, under the current revision |
| SignalServer.SignalServer.EraseEmptyRooms | server/src/signal_server.cpp:465-471 | exactly the rooms without leases go |
| SignalServer.SignalServer.Shown | server/src/signal_server.cpp:2004-2022 | whenever no handler is running the published list shows every room with the number of its leases and its settings |
| SignalTerms.ListsMore | server/src/signal_server.cpp:2004-2022 | what a list gains when a room gains a lease: one player there, and nothing else |
| SignalTerms.ListsLess | server/src/signal_server.cpp:2004-2022 | what it loses when a lease goes: one player, or the room with its last one |
| SignalServer.LoginMeans | server/src/signal_server.cpp:1463-1581 | every outcome of a login, read off the leases and sessions |
| SignalServer.ValidMeans | server/src/signal_server.cpp:336-375 | the search of a lease by peer id and the comparison of tokens find exactly the leases that the token opens |
| SignalServer.ResumeMeans | server/src/signal_server.cpp:1824-1904 | every outcome of an awaited resumption, read off the leases |
| SignalServer.OfflineMeans | server/src/room.h:317-324 | marking a lease offline gives it 120 seconds and changes no other lease |
| SignalServer.JoinMeans | server/src/signal_server.cpp:1695-1730 | why a session that asked to join is where it is |
| SignalExpiry.SurvivorsMean | server/src/signal_server.cpp:416-464 | in one room: a lease goes exactly if it was offline, past its time and without an alive session there; every other stays, online exactly if it has one when it is looked at |
| SignalExpiry.CleanedMeans | server/src/signal_server.cpp:416-474 | in all rooms: the leases left are old leases with their times kept or 120 seconds given, none of them past its time; every lease that went was offline, past its time, and its peer is not present; no session is removed |
| SignalServer.JoinedAndGone | server/src/signal_server.cpp:377-395 | a join that is rolled back leaves the room list as it was |
| SignalServer.CreatedAndGone | server/src/signal_server.cpp:377-395 | a creation that is rolled back leaves the room list as it was |
| RawUdpFragments.DecodeEncode | client-cli/src/cli_peer.cpp:202-222 | helper: header and payload of a fragment are read back as written |
| RawUdpFragments.HeaderLayout | common/protocol.h:176-181 | the six bytes of the header |
| RawUdpFragments.PiecesJoin | client-cli/src/cli_peer.cpp:182-200 | the pieces of a packet join to the packet |
| RawUdpFragments.PiecesShape | client-cli/src/cli_peer.cpp:257-278 | their number and each of their lengths are what the receiver computes from the packet length |
| RawUdpFragments.CompletedOnce | client-cli/src/cli_peer.cpp:324-357 | under any interleaving with duplicates before completion a message is completed once all its fragments have arrived, and then exactly once |
| RawUdpTunnel.SentIsWellFormed | client-cli/src/cli_peer.cpp:257-278 | every fragment that send produces passes the checks of processFrag under the same settings |
| RawUdpTunnel.CompleteIsExact | client-cli/src/cli_peer.cpp:338-357 | with as many fragments as the message has none is missing and the lengths add up: both error branches at completion are unreachable |
| RawUdpTunnel.RawUdpTunnel.Send | client-cli/src/cli_peer.cpp:182-200 | the packet goes out as the encoded fragments of its pieces, in order, under one message id |
| RawUdpTunnel.RawUdpTunnel.RemoveEntry | client-cli/src/cli_peer.cpp:392-402 | the byte count stays the sum of what is stored; the saturating subtraction never saturates |
| RawUdpTunnel.RawUdpTunnel.EnsureCapacity | client-cli/src/cli_peer.cpp:404-424 | succeeds exactly when the incoming bytes alone fit 131072, terminates, and evicts exactly what Evict says: the oldest first, until the bytes and, for a new message, one of 64 places are there |
| RawUdpTunnel.EvictsOnlyIfNeeded | client-cli/src/cli_peer.cpp:404-424 | with the last message that was evicted still there, there would have been no room |
| RawUdpTunnel.RawUdpTunnel.CleanupStale | client-cli/src/cli_peer.cpp:381-390 | exactly the messages that are more than 2000 milliseconds old on the 32-bit clock go |
| RawUdpTunnel.RawUdpTunnel.ProcessFrag | client-cli/src/cli_peer.cpp:257-357 | for any bytes, eviction included, table and output become exactly what Processed says; malformed input does nothing, a packet of one fragment is delivered unless it is a keepalive or a probe, a clash drops the message |
| RawUdpTunnel.ProcessedWithRoom | client-cli/src/cli_peer.cpp:302-357 | with room for the fragment nothing is evicted, and the step is the one the delivery theorem runs on |
| RawUdpTunnel.WellFormedBytes | client-cli/src/cli_peer.cpp:257-278 | the checks on a fragment, on its bytes |
| RawUdpTunnel.ReplyLayout | client-cli/src/cli_peer.cpp:284-293 | the bytes of the answer to a latency probe |
| RawUdpDelivery.TrackedStep | client-cli/src/cli_peer.cpp:302-357 | a fragment of a packet in flight never clashes, and the packet is delivered, byte for byte, with the last of its fragments |
| RawUdpDelivery.Delivered | client-cli/src/cli_peer.cpp:257-357 | over any interleaving of any number of packets, none of which is taken for a keepalive or a latency probe, the output grows by exactly the completed packets |
| SendBuffers.SendSide.Append | server/src/signal_server.cpp:2363-2384 | a frame is appended whole exactly when it fits the buffer and the global budget, and otherwise not at all; the global count stays the sum of all buffers and under its cap |
| SendBuffers.SendSide.Consume | server/src/signal_server.cpp:2386-2394 | bytes the socket has taken leave the buffer and the count, which never has to be cut off at zero |
| SendBuffers.SendSide.Clear | server/src/signal_server.cpp:2396-2403 | a cleared buffer gives back exactly its bytes |
| SendBuffers.SendSide.Flush | server/src/signal_server.cpp:2303-2323 | the bytes taken are the sum of the positive counts answered first, cut to what waits, in order; the client is lost exactly if bytes wait and the next answer is an error or zero; on EAGAIN it is kept; the stream never changes |
| SendBuffers.SendSide.SendMsg | server/src/signal_server.cpp:2432-2464 | a frame joins the stream whole exactly if the client is alive, the payload has at most 65000 bytes and both budgets have room, and is then flushed; otherwise nothing joins, and the third refusal in a row gives the client up |
| SendBuffers.SendSide.Destroy | server/src/signal_server.cpp:872-890 | a client that goes gives back all its bytes |

## Left out

- Sockets, event loops, threads, adapters, firewall calls, user interface, logging and wiping of memory.
- SIMD instructions and alignment: a SIMD step is sixteen byte operations.
- The packed matrix of the decoder is three arrays instead of three parts of one buffer; `Cm256Factor.PackedSizes` shows that they fill it exactly.
- Cm256Decoder.Decode: the blocks are in separate buffers and no recovery block is given twice, as the header of the library asks. They are blocks of a code word, which by `CodeWords.WordExists` any blocks are that meet these conditions.
- FecDelivery.Delivered: while its packets arrive, a group is not evicted, timed out or displaced by another group with its 8-bit id; after that a late duplicate can be emitted again.
- KCP timers, round-trip estimates, congestion control and fast retransmission are an oracle that decides which segments are due; liveness under real clocks is not modelled. KcpProgress says what is achieved once they are due.
- KCP stream mode, `ikcp_check`, the allocator hooks, and the growth of the acknowledgement array, which is a sequence here.
- KcpNetwork.EndToEnd: no delivered datagram is further behind than half the 32-bit number space less twice the largest window; the code has no means to tell an older datagram from a new one.
- The AEAD, key derivation and the BLAKE2b compression function are given functions; cryptographic strength is not modelled.
- SecureFrame.SecureFrameCipher.Encrypt: the results hold for one init; `reset` restarts the counters.
- Poly1305Stream.Poly1305Ctx.Final: the wiped context is left unspecified.
- The parsing of client requests, rate limits, passwords and random tokens are parameters of the handlers of SignalServer; its indexes of data channels and secure sessions are not modelled.
- SignalServer.SignalServer.CleanupExpiredLeases: a handler reads the clock once, where the source may read it again a moment later. Which connections a message ends is given, as any set of sessions; the budgets that decide it are those of SendBuffers.
- SignalServer.SignalServer.OnLogout and SignalServer.SignalServer.DestroyClient change session and index before they release the peer id, in the order that shows the invariant; the source's order differs inside the handler.
- SignalServer.SignalServer.Handshake: key exchange and server authentication are an outcome that is given.
- A peer id can be leaked, that is, freed by nobody; only aliasing is excluded.
- Names of players are not unique after a resume, and nothing is claimed about them.
- SignalValidator.ValidateRoomList: which error is reported is specified for the elementary reads only; of the other message types only the delta is modelled byte by byte.
- RoomPages.PagesRebuild: more than 65535 pages, whose count is cut to 16 bits.
- RawUdpDelivery.Delivered: error correction off, no eviction and no timeout during the run, one packet per message id, as the 16-bit id space only allows while no old message is stored.
- RawUdpTunnel.RawUdpTunnel.ProcessFrag: the round-trip estimate of a pong, and the relay header around a fragment.
- SendBuffers.SendSide.Flush: the answers of the socket are a given finite list; the flush of the data channel, which closes that channel on an error, is not modelled.
- EdDSA, Elligator, Argon2 and the curve arithmetic of the cryptographic library.

# UnionLabs: a verified model of the coding, framing and exchange layers

UnionLabs carries the payloads of distributed algorithms over software radios, LoRa modules and TCP. This project models
the parts of it on which correct delivery rests, in Dafny, and proves what they are for:

- the rate-1/2, K = 7 convolutional code (the polynomials of section 17.3.5.6 of IEEE 802.11-2020, with the 171 output
  first) and its Viterbi decoder, hard and soft;
- the staircase LDPC code: construction, encoder and min-sum decoder;
- packets with a CRC-16 (the generator polynomial of section 2 of ITU-T V.41, initial value 0xFFFF), alone and under
  forward error correction;
- the stop-and-wait ARQ of the USRP modem and its acknowledgement links;
- LoRa fragmentation, reassembly, stop-and-wait and the transfer over the simulated medium;
- the decentralised exchange over a peer graph and the star around one hub, as transition systems over all interleavings;
- the LoRa chirp modem: the in-place FFT, the modulator, the demodulator and the bit packing.

Decoding metrics, channel values and magnitudes are exact reals. The chirp modem works over any commutative ring with a
root of unity, so that its statements are about exact arithmetic. Randomness is a parameter: the shuffle of the LDPC
sockets is any permutation, and what a lossy medium does to a frame is any choice, on the simulated LoRa medium any random
number held against the link's margin. A timeout is a step that may happen at any time. TCP connections are first-in
first-out queues.

The files follow the repository: loops and objects are methods and classes whose contracts tie them to specification
functions, and the theorems are lemmas about those functions. `Arithmetic`, `Bits`, `BinaryNumbers`, `Chunks`, `Counting`,
`Octets`, `Options` and `Rings` hold what several modules share.

Four places where the code does less than its comments or its callers may expect are stated exactly:

- a message of more than 255 chunks is announced with a wrapped count, so a clean run saves the whole message exactly when
  it makes at most 255 chunks (`StopAndWait.CleanRunSavesMessageIff`), and every message has a clean run
  (`StopAndWait.CleanRunExists`);
- an empty LDPC payload is given a reserved length of zero, yet yields one whole block (`FecBlocks.LengthIsReserved`);
- a LoRa message can be returned more than once. On a medium that may repeat frames any message can be returned any number
  of times, provided that a transmission is allowed and the receiver is addressed (`LoraRepeats.ReturnsAnyNumberOfTimesIff`).
  When frames are only lost and arrive in order, a second return takes a message of one fragment, and there are at most as
  many returns as transmissions allowed (`LoraFifo.ReturnsInOrderIff`);
- a call of the LoRa receiving function raises when as many fragment numbers have been heard as were last announced and some
  wanted one is not among them (`LoraRaise.RaisedIff`); a message alone never makes it raise (`LoraRaise.NeverRaisedAlone`).

## Model

| member | source | states |
|---|---|---|
| ConvolutionalCode.ConvolutionalEncoder.ClockBit | drivers/usrp/include/fec.hpp:130-140 | clocking one bit appends the two parity outputs, 171 before 133, of the delay line the byte register implements, and shifts the bit in |
| ConvolutionalCode.ConvolutionalEncoder.EncodeBits | drivers/usrp/include/fec.hpp:112-118 | the output is the trellis path of the message followed by six zeros, and the register ends empty whatever it held before |
| ConvolutionalCode.ConvolutionalEncoder.Reset | drivers/usrp/include/fec.hpp:112-118 | the delay line is empty |
| ConvolutionalCode.OutputsAreConvolution | drivers/usrp/include/fec.hpp:112-140 | every output pair is the exclusive or of those among the current input and the six before it that the two generator polynomials select |
| ConvolutionalCode.EncodeLinear | drivers/usrp/include/fec.hpp:112-140 | encoding is linear over GF(2) |
| ConvolutionalCode.FlushEmptiesRegister | drivers/usrp/include/fec.hpp:112-118 | six zero inputs bring any state to the empty one |
| ConvolutionalCode.MinimumDistance | drivers/usrp/include/fec.hpp:112-140 | two different messages of any common length have encodings at least ten bits apart |
| Viterbi.ViterbiDecoder.BuildEdge | drivers/usrp/include/fec.hpp:190-203 | a trellis entry computed on the byte register is the next state and output pair of the delay line |
| Viterbi.ViterbiDecoder.Forward | drivers/usrp/include/fec.hpp:205-250 | the survivor array filled by the nested loops equals the survivor table of the dynamic program, ties included |
| Viterbi.ViterbiDecoder.Run | drivers/usrp/include/fec.hpp:205-271 | forward pass and traceback return the survivor path from state 0, less its last six inputs, or nothing for six symbols or fewer |
| Viterbi.ViterbiDecoder.DecodeHard | drivers/usrp/include/fec.hpp:166-169 | decodes the pairs of a hard word, an odd last bit ignored |
| Viterbi.ViterbiDecoder.DecodeSoft | drivers/usrp/include/fec.hpp:173-176 | decodes the pairs of channel values, an odd last value ignored |
| MaximumLikelihood.MetricsAreLowerBounds | drivers/usrp/include/fec.hpp:223-250 | no path into a state costs less than that state's metric |
| MaximumLikelihood.SurvivorsAttainMetrics | drivers/usrp/include/fec.hpp:223-262 | the survivors lead back along a trellis path whose cost is exactly the metric |
| MaximumLikelihood.TracebackIsOptimal | drivers/usrp/include/fec.hpp:205-271 | the traced path runs from state 0 to state 0, ends in six zero inputs, and costs no more than any message followed by the flush |
| MaximumLikelihood.HardDecodingIsMaximumLikelihood | drivers/usrp/include/fec.hpp:166-169 | for every received word, re-encoding the decoded message is no farther from it than any codeword of that length |
| MaximumLikelihood.SoftDecodingMaximisesCorrelation | drivers/usrp/include/fec.hpp:173-176 | for all channel values, the decoded codeword has the largest correlation with them of all terminated codewords |
| MaximumLikelihood.CorrectsFourErrors | drivers/usrp/include/fec.hpp:112-271 | any word within four bits of an encoding decodes to exactly that message, for every length |
| MaximumLikelihood.FiveErrorsCanDefeat | drivers/usrp/include/fec.hpp:112-271 | for every message length of at least one, five errors can lead to another message |
| MaximumLikelihood.CorrectionRadius | drivers/usrp/include/fec.hpp:112-271 | all patterns of up to e errors are corrected, for a message length of at least one, exactly when e is at most four |
| MaximumLikelihood.CorrectsNineErasures | drivers/usrp/include/fec.hpp:112-271 | channel values none of which contradicts its coded bit, at most nine of them zero, decode to exactly that message, for every length |
| MaximumLikelihood.TenErasuresCanDefeat | drivers/usrp/include/fec.hpp:112-271 | for every message length of at least one, ten zeros can hide the message |
| MaximumLikelihood.ErasureRadius | drivers/usrp/include/fec.hpp:112-271 | all patterns of up to e zeros are made good by soft decoding, for a message length of at least one, exactly when e is at most nine |
| MaximumLikelihood.CorrectsWhenTensSupport | drivers/usrp/include/fec.hpp:112-271 | soft decoding finds the message, for every length, whenever in any ten or more positions of its codeword the channel values speak for the coded bits on balance |
| MaximumLikelihood.CorrectsSmallShortfall | drivers/usrp/include/fec.hpp:112-271 | channel values of at most L in magnitude that fall short of full support by less than 10 L in all, wrong signs of any magnitude included, decode to exactly that message |
| MaximumLikelihood.MixtureCanDefeat | drivers/usrp/include/fec.hpp:112-271 | for every message length of at least one, e wrong signs and s zeros with 2e + s at least ten can lead to another message |
| MaximumLikelihood.MixedRadius | drivers/usrp/include/fec.hpp:112-271 | all patterns of up to e wrong signs and s zeros among channel values of one magnitude are made good, for a message length of at least one, exactly when 2e + s is at most nine |
| MaximumLikelihood.SoftAgreesWithHard | drivers/usrp/include/fec.hpp:223-271 | on channel values of +L and -L the soft decoder returns bit for bit what the hard decoder returns, ties included |
| ViterbiTies.FirstOfTheBest | drivers/usrp/include/fec.hpp:205-271 | of all messages whose codewords cost least the decoder returns the one that has a zero where it last differs from any other: with the optimality this says which message is returned for every input, ties included |
| ViterbiTies.HardDecodesFirstNearest | drivers/usrp/include/fec.hpp:166-271 | hard decoding returns the nearest message, and of several equally near the one that has a zero where they last differ |
| ViterbiTies.SoftDecodesFirstBest | drivers/usrp/include/fec.hpp:173-271 | soft decoding returns the message of largest correlation, and of several the one that has a zero where they last differ |
| LdpcPlacement.RowsKept | drivers/usrp/include/ldpc.hpp:212-234 | until a row is overwritten by the fallback, the multiset of rows in the sockets is unchanged |
| LdpcPlacement.PlaceExchanges | drivers/usrp/include/ldpc.hpp:214-226 | a socket with a row new to its column stays; one that repeats a row changes places with the first later socket whose row is new, and no other socket changes |
| LdpcPlacement.PlaceOverwrites | drivers/usrp/include/ldpc.hpp:214-235 | a row is overwritten, by the least row new to the column, exactly when the socket and all later ones repeat rows of the column and the column lacks one; only then do the row counts change |
| LdpcPlacement.OverwritesIff | drivers/usrp/include/ldpc.hpp:212-240 | over the whole construction a row is overwritten exactly when some placement, after those before it, is stuck in that way |
| LdpcPlacement.ColumnsAreDistinct | drivers/usrp/include/ldpc.hpp:212-240 | when the column weight is at most the number of rows, every column ends with distinct rows, and later columns do not disturb it |
| LdpcPlacement.DistinctIffWeightFits | drivers/usrp/include/ldpc.hpp:212-240 | a column ends with distinct rows exactly when the column weight does not exceed k |
| LdpcPlacement.BalancedRows | drivers/usrp/include/ldpc.hpp:203-210 | every row starts with exactly col_weight sockets |
| Ldpc.PlaceSocket | drivers/usrp/include/ldpc.hpp:214-236 | one socket is kept if its row is new to the column, else swapped with the first later socket that is, else overwritten with the first unused row |
| Ldpc.RowUsedInColumn | drivers/usrp/include/ldpc.hpp:250-255 | whether the row is among the sockets of the column placed so far |
| Ldpc.LdpcCode.AddEdge | drivers/usrp/include/ldpc.hpp:189-195 | both adjacency lists name exactly the edges that end at each node, in order, after one more edge |
| Ldpc.LdpcCode.Build | drivers/usrp/include/ldpc.hpp:197-247 | the graph is the one the placement of the shuffled sockets gives, with the parity staircase after it and k*col_weight + 2k - 1 edges in all |
| Ldpc.LdpcCode.constructor | drivers/usrp/include/ldpc.hpp:49-64 | sizes and limits are clamped to at least one, a scale that is not positive becomes 0.75, and the graph is built |
| Ldpc.EdgesOfColumn | drivers/usrp/include/ldpc.hpp:212-240 | an info edge belongs to a column exactly when it is one of that column's col_weight sockets |
| Ldpc.RowsStayBalanced | drivers/usrp/include/ldpc.hpp:203-240 | unless some placement is stuck while its column still lacks a row, every check touches exactly col_weight info edges |
| Ldpc.ColumnsHaveDistinctRows | drivers/usrp/include/ldpc.hpp:203-240 | for any shuffle, every info column has col_weight distinct rows exactly when col_weight is at most k |
| LdpcGraph.SyndromeIsStep | drivers/usrp/include/ldpc.hpp:125-131 | the decoder's check r compares its info bits with the step from parity bit r-1 to parity bit r |
| LdpcGraph.CodewordCharacterisation | drivers/usrp/include/ldpc.hpp:70-88 | for every k, column weight and shuffle, a vector passes the syndrome test exactly when it is the encoding of its first k bits |
| Ldpc.LdpcCode.EncodeBlock | drivers/usrp/include/ldpc.hpp:70-88 | the array is the info word, zero-padded or cut to k bits, followed by the running parity of the checks |
| Ldpc.VariableUpdate | drivers/usrp/include/ldpc.hpp:113-123 | hard decisions and messages to the checks are those of the beliefs: channel value plus all incoming messages, less the edge's own |
| Ldpc.SyndromeIsClear | drivers/usrp/include/ldpc.hpp:125-131 | the early-exit test is true exactly when every check has even parity |
| LdpcMinSum.MinMagnitudeIsLeast | drivers/usrp/include/ldpc.hpp:137-157 | the minimum of a check is a lower bound of all its magnitudes and of the float maximum, and is attained |
| LdpcMinSum.NextMinima | drivers/usrp/include/ldpc.hpp:146-151 | one step of the scan keeps the two smallest magnitudes and the place of the smallest, ties included |
| LdpcMinSum.MinimumOfOthers | drivers/usrp/include/ldpc.hpp:152-154 | the magnitude picked for an edge is the least over all other edges of the check, for every degree |
| LdpcMinSum.SignWithout | drivers/usrp/include/ldpc.hpp:154-156 | the product of all signs is the product of the others times the edge's own |
| Ldpc.ScanCheck | drivers/usrp/include/ldpc.hpp:141-151 | one pass finds the two smallest magnitudes and the product of the signs |
| Ldpc.SendMinimum | drivers/usrp/include/ldpc.hpp:137-157 | every edge of a check gets exactly scale times the product of the signs and the least magnitude of all other edges; no other edge changes |
| Ldpc.CheckUpdate | drivers/usrp/include/ldpc.hpp:134-158 | all messages from the checks are those |
| Ldpc.LdpcCode.DecodeBlock | drivers/usrp/include/ldpc.hpp:96-168 | info bits and iteration count are those of flooding min-sum with early stop, for every input |
| LdpcMinSum.EarlyStopIsCodeword | drivers/usrp/include/ldpc.hpp:96-168 | the decoder stops early exactly when the hard word of one of its iterations passes the syndrome test; it stops at the first such iteration, and the encoding of its info bits is that iteration's hard word; otherwise the info bits are those of the last hard word |
| LdpcMinSum.StopsAtOnceIffSignsAreCodeword | drivers/usrp/include/ldpc.hpp:106-131 | the decoder stops in iteration 1 exactly when the signs of the channel values already form a codeword |
| LdpcMinSum.CorrectSignsDecode | drivers/usrp/include/ldpc.hpp:106-168 | channel values with the signs of a codeword give its info bits back in iteration 1 |
| LdpcPeeling.ChannelIsClipped | drivers/usrp/include/ldpc.hpp:106-107 | a variable starts from the value between -20 and 20 nearest to its channel value, or from zero if there is none |
| LdpcPeeling.ToCheckIsExtrinsic | drivers/usrp/include/ldpc.hpp:113-123 | the message to a check is the channel value plus what all other checks of the variable told it |
| LdpcPeeling.CheckMessageSign | drivers/usrp/include/ldpc.hpp:137-157 | for a positive scale the message of a check is negative exactly when an odd number of the other messages, none of them zero, are |
| LdpcPeeling.CheckMessageMagnitude | drivers/usrp/include/ldpc.hpp:137-157 | for a positive scale its magnitude is the scale times the least magnitude of the other messages, at most the largest float |
| LdpcPeeling.HardWordIsPeeled | drivers/usrp/include/ldpc.hpp:96-158 | for a positive scale, when no channel value has the wrong sign, the hard word after any number of iterations is the codeword with zeros where peeling has not yet found the bit |
| LdpcPeeling.PeelingDecodes | drivers/usrp/include/ldpc.hpp:96-168 | when in addition peeling finds every erased bit within the iterations allowed, the decoder returns the info bits, and stops in the first iteration in which all ones have been found |
| LdpcPeeling.OneErasureDecodes | drivers/usrp/include/ldpc.hpp:96-168 | a single erased bit that meets some check on one edge only is made good by the second iteration |
| FecBlocks.BlockEncode | drivers/usrp/include/fec.hpp:451-467 | the payload is cut into zero-padded blocks, at least one, each encoded |
| FecBlocks.BlockDecode | drivers/usrp/include/fec.hpp:482-494 | every whole block of channel values is decoded, a remainder is dropped |
| FecBlocks.EncodeBlock | drivers/usrp/include/fec.hpp:469-477 | dispatches to the LDPC code or to the freshly reset convolutional encoder |
| FecBlocks.DecodeBlock | drivers/usrp/include/fec.hpp:499-515 | hard bits become channel values of magnitude 8 for LDPC; the result is trimmed to the info length when one is given |
| FecBlocks.SoftDecodeBlock | drivers/usrp/include/fec.hpp:520-533 | soft decoding with the selected code and the same trimming |
| FecBlocks.SoftRoundTrip | drivers/usrp/include/fec.hpp:451-533 | soft decoding gives exactly the payload, for every length, when the channel values have the right signs under LDPC, and when any ten of them speak for their bits on balance under the convolutional code |
| FecBlocks.HardRoundTrip | drivers/usrp/include/fec.hpp:469-515 | hard decoding undoes encoding for both codes and every payload length, zero included |
| FecBlocks.HardDecodeYields | drivers/usrp/include/fec.hpp:469-515 | a negative or too large length keeps all decoded bits, which are the payload and zeros up to whole LDPC blocks; any other keeps that many |
| FecBlocks.BlocksCarryPayload | drivers/usrp/include/fec.hpp:451-467 | there is a block for every k bits begun, and at least one; each is a codeword that begins with its share of the payload and zeros after its end |
| FecBlocks.RemainderIsIgnored | drivers/usrp/include/fec.hpp:482-494 | channel values after the last whole block change nothing |
| FecBlocks.LengthIsReserved | drivers/usrp/include/fec.hpp:434-467 | the encoded length equals the reserved length exactly when the code is convolutional or the payload is not empty |
| Crc16.SyndromeOfError | drivers/usrp/include/messages.hpp:140-150 | the check of a corrupted frame differs from that of the frame by the remainder of the error pattern alone |
| Crc16.CheckBitsDivide | drivers/usrp/include/messages.hpp:140-150 | a frame with check bits has remainder zero exactly when the bits are its own CRC |
| Crc16.PresetInverts | drivers/usrp/include/messages.hpp:140-150 | the CRC of at least sixteen bits is the plain remainder, from an empty register, of the same bits with the first sixteen inverted |
| Crc16.BurstIsDetected | drivers/usrp/include/messages.hpp:140-150 | a non-zero error pattern within 16 consecutive bits leaves a non-zero remainder, for every length |
| Crc16.OddErrorsAreDetected | drivers/usrp/include/messages.hpp:140-150 | an odd number of errors leaves a non-zero remainder, for every length |
| CrcOrder.PeriodIff | drivers/usrp/include/messages.hpp:140-150 | modulo the generator polynomial, x to the power d is 1 exactly when 32767 divides d |
| CrcOrder.TwoErrorsMissedIff | drivers/usrp/include/messages.hpp:140-150 | two errors leave the remainder zero exactly when 32767 divides their distance, wherever they are |
| CrcOrder.UpToThreeErrorsAreDetected | drivers/usrp/include/messages.hpp:140-150 | in at most 32767 bits, one, two or three errors leave a non-zero remainder |
| Packet.StringToBits | drivers/usrp/include/messages.hpp:100-108 | the bits of all bytes, most significant first |
| Packet.BitsToString | drivers/usrp/include/messages.hpp:111-122 | the whole bytes of a bit string |
| Packet.BytesOfBytesBits | drivers/usrp/include/messages.hpp:100-122 | bytes survive the trip through bits, with up to seven bits after them |
| BinaryNumbers.BitIsDigit | drivers/usrp/include/messages.hpp:100-108 | bit k of a number of n bits is its binary digit of weight 2^(n-1-k) |
| Packet.Crc16Ccitt | drivers/usrp/include/messages.hpp:140-150 | the bytewise register loop computes the remainder of the bit stream |
| Packet.BuildPacketBits | drivers/usrp/include/messages.hpp:180-200 | header, payload and check in order |
| Packet.DecodePacketBits | drivers/usrp/include/messages.hpp:207-238 | index, count, payload and verdict of any bit string, those too short for a header included |
| Packet.PacketRoundTrip | drivers/usrp/include/messages.hpp:180-238 | every packet is read back with its CRC accepted, with up to seven bits after it |
| Packet.AcceptedIsPacket | drivers/usrp/include/messages.hpp:207-238 | a bit string whose CRC is accepted is a built packet followed by fewer than eight bits |
| Packet.WireFormat | drivers/usrp/include/messages.hpp:153-200 | index, count and payload go out byte by byte, the bit of weight 128 first, and after them the CRC of all these bits |
| Packet.SilenceIsRejected | drivers/usrp/include/messages.hpp:140-238 | a burst of nothing but zeros is rejected, whatever its length |
| Packet.ErrorUndetectedIffDivisible | drivers/usrp/include/messages.hpp:140-238 | an error pattern passes exactly when the generator divides it |
| Packet.BurstRejected | drivers/usrp/include/messages.hpp:181-238 | every non-zero error pattern within 16 consecutive bits of a packet is rejected, for every payload length |
| Packet.OddErrorsRejected | drivers/usrp/include/messages.hpp:181-238 | every odd number of bit errors in a packet is rejected, for every payload length |
| Packet.TwoErrorsRejectedIff | drivers/usrp/include/messages.hpp:140-238 | two wrong bits in a packet pass exactly when 32767 divides their distance |
| Packet.UpToThreeErrorsRejectedIff | drivers/usrp/include/messages.hpp:140-238 | every pattern of one, two or three wrong bits in a packet is rejected exactly when the payload is at most 4091 bytes |
| CodedPackets.CodedPacketSurvives | drivers/usrp/include/ACQ_stop_and_wait.hpp:274-281 | on hard decisions the sink reads a coded packet back exactly, whatever follows it in the burst, with up to four wrong bits under the convolutional code |
| CodedPackets.ReservedLen | drivers/usrp/include/fec.hpp:434-446 | the length to which a burst is trimmed is the coded length of the packet under the code in use |
| CodedPackets.DecodeBurst | drivers/usrp/include/ACQ_stop_and_wait.hpp:275-276 | hard bits are trimmed to the coded length and decoded with the code in use |
| CodedPackets.DecodeSoftBurst | drivers/usrp/include/ACQ_stop_and_wait.hpp:264-271 | channel values are trimmed to the coded length and soft-decoded with the code in use |
| CodedPackets.CarriedIsRead | drivers/usrp/include/ACQ_stop_and_wait.hpp:253-281 | a packet is read back exactly, coded or not, from hard bits or from channel values, out of any burst that carries its frame damaged no more than the code puts right |
| StopAndWait.Run | drivers/usrp/include/ACQ_stop_and_wait.hpp:72-147 | the nested loops of the source, for any sequence of polls, deadlines and stops, end with the counters and per-chunk records of the source machine |
| StopAndWait.SendChunk | drivers/usrp/include/ACQ_stop_and_wait.hpp:92-131 | the attempts of one chunk end with its acknowledgement, a stop or the last allowed attempt, and leave the counters of the source machine |
| StopAndWait.Wait | drivers/usrp/include/ACQ_stop_and_wait.hpp:101-113 | the innermost loop ends at the awaited acknowledgement, the deadline or a stop, and ignores stale acknowledgements |
| StopAndWait.Sink.Receive | drivers/usrp/include/ACQ_stop_and_wait.hpp:281-340 | a burst, decoded, is stored and acknowledged exactly when its CRC holds and its index is below a non-zero count |
| StopAndWait.AcceptsIff | drivers/usrp/include/ACQ_stop_and_wait.hpp:281-305 | a burst is accepted exactly when it is a packet, followed by fewer than eight bits, whose index is below its count |
| StopAndWait.PacketReplaces | drivers/usrp/include/ACQ_stop_and_wait.hpp:281-340 | such a packet replaces what is held under its index and completes the message if the count is reached; any other changes nothing |
| StopAndWait.Sink.SaveMessage | drivers/usrp/include/ACQ_stop_and_wait.hpp:212-222 | the saved bytes are the stored chunks in order |
| StopAndWait.SavedInOrder | drivers/usrp/include/ACQ_stop_and_wait.hpp:212-222 | what is saved is the chunks held below the number of chunks, each once, in increasing order of index |
| StopAndWait.RunKeepsInv | drivers/usrp/include/ACQ_stop_and_wait.hpp:72-340 | every run over a channel that loses, repeats and reorders frames and acknowledgements keeps the invariant |
| StopAndWait.AcknowledgedIsStored | drivers/usrp/include/ACQ_stop_and_wait.hpp:72-340 | whenever a chunk is marked acknowledged, the sink holds that chunk as it was sent |
| StopAndWait.DoneIffComplete | drivers/usrp/include/ACQ_stop_and_wait.hpp:306-337 | the sink says done exactly when at least one chunk is announced and it holds all of them; what it saves is then their concatenation |
| StopAndWait.CleanRunDelivers | drivers/usrp/include/ACQ_stop_and_wait.hpp:72-340 | a finished run that was not stopped and has nothing unacknowledged leaves the sink with all announced chunks |
| Chunks.SplitMessage | drivers/usrp/include/messages.hpp:125-132 | the loop in strides of n yields the pieces of n bytes, the last one possibly shorter |
| Chunks.PieceAt | drivers/usrp/include/messages.hpp:125-132 | piece i exists exactly when the message reaches element i n, and takes n elements from there or what is left |
| Chunks.SplitJoin | drivers/usrp/include/messages.hpp:125-132 | joining undoes splitting, and no chunk is empty or longer than n |
| StopAndWait.CleanRunSavesMessageIff | drivers/usrp/include/ACQ_stop_and_wait.hpp:72-222 | what the sink saves after a clean run is the original message exactly when it makes at most 255 chunks |
| StopAndWait.CleanRunExists | drivers/usrp/include/ACQ_stop_and_wait.hpp:72-222 | every message, however many chunks it makes, has a run that ends clean; beyond 255 chunks such a run saves something other than the message |
| StopAndWait.Accounting | drivers/usrp/include/ACQ_stop_and_wait.hpp:82-147 | transmissions are retransmissions plus acknowledged chunks plus the one in flight, and a run that ends unstopped has acknowledged and failed chunks adding up to the total |
| AttemptCounts.ChunkIsRecorded | drivers/usrp/include/ACQ_stop_and_wait.hpp:82-147 | a chunk is on record as acknowledged exactly when its acknowledgement came while it was waited for, and its transmissions are the attempts that ended by the clock or a stop and the one answered |
| AttemptCounts.LapsesAreCounted | drivers/usrp/include/ACQ_stop_and_wait.hpp:82-147 | retransmissions count the attempts that ended by the clock or a stop, failures the chunks that had exactly max_attempts transmissions in vain; any other chunk left unacknowledged is the last one before a stop |
| AttemptCounts.StopsIff | drivers/usrp/include/ACQ_stop_and_wait.hpp:82-147 | the source has stopped exactly when a turn told it to before it was done |
| AttemptCounts.QuietRunIsPerfect | drivers/usrp/include/ACQ_stop_and_wait.hpp:82-147 | without deadline or stop nothing is retransmitted or given up on, whatever stale acknowledgements come: every finished chunk took one transmission and was acknowledged |
| StopAndWait.AttemptsRunOut | drivers/usrp/include/ACQ_stop_and_wait.hpp:92-131 | with a limit on attempts, every deadline, awaited acknowledgement or stop brings the end closer |
| StopAndWait.SourceEnds | drivers/usrp/include/ACQ_stop_and_wait.hpp:82-147 | with a limit on attempts the source has ended by the time the clock has run out once per attempt and chunk |
| CodedArq.CodedSink.Corrected | drivers/usrp/include/ACQ_stop_and_wait.hpp:252-280 | the sink decodes channel values when it wants them and has them, else hard bits, and leaves the bits alone without error correction |
| CodedArq.CodedSink.Receive | drivers/usrp/include/ACQ_stop_and_wait.hpp:242-340 | the decoded burst is stored and acknowledged as without error correction |
| CodedArq.CodedRunIsPlain | drivers/usrp/include/ACQ_stop_and_wait.hpp:72-340 | with coded frames in the air, hard or soft decisions, and bursts damaged no more than the code puts right or failing the CRC, every run is a run of the uncoded link as far as the two ends can tell |
| CodedArq.CodedAcknowledgedIsStored | drivers/usrp/include/ACQ_stop_and_wait.hpp:72-340 | whenever a chunk is marked acknowledged on a coded link, the sink holds that chunk as it was sent |
| CodedArq.CodedCleanRunSavesMessageIff | drivers/usrp/include/ACQ_stop_and_wait.hpp:72-340 | what the sink saves after a clean run on a coded link is the original message exactly when it makes at most 255 chunks |
| AckTransport.TcpAckLink.SendAck | drivers/usrp/include/ack_transport.hpp:83-89 | index and count go onto the stream as two bytes |
| AckTransport.TcpAckLink.PollAck | drivers/usrp/include/ack_transport.hpp:91-101 | a poll takes in whatever bytes arrived and yields the index of the first whole pair |
| AckTransport.WireBytes | drivers/usrp/include/ack_transport.hpp:83-89 | every acknowledgement is two bytes on the stream, the index before the count |
| AckTransport.PollsYieldAcksInOrder | drivers/usrp/include/ack_transport.hpp:83-101 | under any fragmentation of the stream, the indices polled so far are a prefix of those sent, and the rest is buffered or on its way |
| AckTransport.AllAcksAreYielded | drivers/usrp/include/ack_transport.hpp:83-101 | once all bytes are in, however they were cut into reads, n further polls yield exactly the indices sent and leave nothing buffered exactly when 2n is at least the number of bytes still buffered |
| AckTransport.RfAckLink.PollAck | drivers/usrp/include/ack_transport.hpp:45-65 | one burst is taken from the queue, the oldest, decoded if the link is coded, and yields its index exactly when its CRC is good |
| AckTransport.RfAckLink.SendAck | drivers/usrp/include/ack_transport.hpp:45-49 | the acknowledgement goes out as a packet padded with spaces to the size of a data frame, coded if the link is |
| AckTransport.RfAckIsRead | drivers/usrp/include/ack_transport.hpp:45-65 | a frame damaged no more than the code puts right is read as the index and count sent, with a payload of spaces |
| Gossip.ParseEdges | union/phy_link.py:464-487 | the loop with its set of seen edges yields the edges in order of first mention, or the first error |
| Gossip.CustomAcceptedIff | union/phy_link.py:464-487 | an explicit list is accepted exactly when every part is blank or names two different nodes in range, and is empty only when all are blank |
| Gossip.CustomIsNamed | union/phy_link.py:464-487 | every edge of an explicit list was named |
| Gossip.CustomHasEdgeIff | union/phy_link.py:464-487 | an accepted list has an edge exactly when some part names its two nodes, and the edge leads from the lower to the higher |
| Gossip.FirstBadPartIsReported | union/phy_link.py:464-487 | the error of a list is that of its first unacceptable part: not a pair, a node out of range, or a self-loop |
| Gossip.CustomInOrderOfMention | union/phy_link.py:464-487 | an explicit list keeps its edges in the order in which they are first mentioned |
| Gossip.FullIsSimple | union/phy_link.py:460-461 | the full graph joins every pair exactly once, n(n-1)/2 edges |
| Gossip.FullIsOrdered | union/phy_link.py:460-461 | the pairs of the full graph come in lexicographic order |
| Gossip.RingJoinsNeighbours | union/phy_link.py:462-463 | in the ring two nodes are joined exactly when one follows the other modulo n, and edge i leads from node i to the next |
| Gossip.RingIsSimple | union/phy_link.py:462-463 | the ring repeats no edge, two nodes included, and has n edges for more than two |
| Gossip.EdgesAreSimple | union/phy_link.py:446-491 | any list returned is a simple graph on the nodes, empty exactly for fewer than two of them |
| Gossip.EveryGossipEnds | union/phy_link.py:446-491 | no exchange over a returned list gets stuck, and its runs are bounded |
| PeerLink.RunKeepsInv | union/phy_link.py:704-795 | every interleaving keeps the invariant: what was sent and not taken is in flight, in order, and nothing else |
| PeerLink.EarliestEnabled | union/phy_link.py:776-795 | the node at the globally earliest pending exchange, or its peer in it, can always step |
| PeerLink.NoDeadlock | union/phy_link.py:721-795 | for every schedule and number of nodes, in every reachable state with an unfinished node some node can step |
| PeerLink.RunsEnd | union/phy_link.py:776-795 | every run is no longer than an explicit bound |
| PeerLink.ExchangeTerminates | union/phy_link.py:446-795 | both, for any edge list and number of rounds |
| PeerLink.RoundsMatch | union/phy_link.py:704-735 | every payload handed to the application is the one its sender produced for that very round, one per exchange and in the order of the schedule |
| PeerLink.FirstNamedSpeaksFirst | union/phy_link.py:784-791 | in every reachable state the node named first in an exchange has its peer's payload only if the peer already has its own |
| PeerLink.NothingLeftOver | union/phy_link.py:704-795 | when all have finished, every exchange has delivered both ways, every queue of unaccepted connections is empty and so is every buffer |
| PeerLink.NeighboursWithinOneRound | union/phy_link.py:776-795 | neighbours are never more than one round apart |
| PeerLink.EveryEdgeEveryRound | union/phy_link.py:776-795 | edge e of round r is at place r m + e of the schedule, with m the number of edges |
| PeerLink.Receiver.Arrive | union/phy_link.py:721-735 | an arriving connection waits behind those already queued, and what is pending from its sender, and only from it, grows by its payload |
| PeerLink.Receiver.Recv | union/phy_link.py:721-735 | yields the oldest unread frame of the awaited sender, and keeps those of other senders unread and in order |
| TcpStar.RunKeepsInv | union/phy_link.py:1075-1130 | every interleaving of clients and hub keeps the invariant |
| TcpStar.RoundsAreExact | union/phy_link.py:1094-1130 | each round of the hub consumes exactly one payload of every client still live and of no other, each payload once, and each such client gets that round's reply |
| TcpStar.StopsExactlyWhenAllGone | union/phy_link.py:1096-1113 | with nothing gathered, the hub's loop is over exactly when every client has said goodbye |
| TcpStar.StoppedMeansComplete | union/phy_link.py:1075-1113 | once the hub has stopped, every client has left with one reply for each of its rounds, and the hub ran as many rounds as the client with the most |
| TcpStar.NoDeadlock | union/phy_link.py:1075-1130 | no reachable state is stuck before the hub has stopped and all clients have left |
| TcpStar.RunsEnd | union/phy_link.py:1075-1130 | a run has at most six steps for each round of each client, four for each client, two for each round of the hub and one for its stop |
| TcpStar.Hub.CollectRound | union/phy_link.py:1094-1113 | the collecting loop drops clients that say goodbye, skips connections that break, and gathers one payload from each of the others |
| TcpStar.LiveIff | union/phy_link.py:1096-1113 | a client is live after a run of arrivals exactly when it was and did not say goodbye |
| TcpStar.WaitingInOrder | union/phy_link.py:1096-1113 | the payloads of a run of arrivals are those of its parts, in the order of acceptance |
| LoraFraming.ParseOfWire | drivers/lora/python/framing.py:59-82 | every frame is read back as itself; data is never taken for an acknowledgement or the other way round |
| LoraFraming.WireOfParse | drivers/lora/python/framing.py:59-70 | bytes that parse are exactly a frame's bytes, up to what follows an acknowledgement |
| LoraFraming.DataLayout | drivers/lora/python/framing.py:46-70 | the bytes of a data frame: 'L', addresses, message, number and count low byte first, payload |
| LoraFraming.AckLayout | drivers/lora/python/framing.py:59-82 | the bytes of an acknowledgement: 'A', addresses, message, number low byte first |
| LoraFraming.ParseOfFragment | drivers/lora/python/framing.py:46-70 | parsing a fragment gives its number, the count, the addresses and its piece of the data |
| LoraFraming.PayloadsJoin | drivers/lora/python/framing.py:46-50 | there is at least one payload, and the payloads join to the data exactly when the stride is positive or the data empty |
| LoraFraming.FramesFitIffRoom | drivers/lora/python/framing.py:46-56 | all frames fit the MTU exactly when it leaves room for a payload |
| LoraFraming.TooManyIff | drivers/lora/python/framing.py:51-54 | fragmentation is refused exactly when the data needs more than 65535 fragments |
| LoraFraming.Reassembler.Add | drivers/lora/python/framing.py:93-98 | a fragment of another message supersedes what is held; the result says whether the message is complete |
| LoraFraming.Reassembler.CheckComplete | drivers/lora/python/framing.py:100-103 | complete, incomplete, or a missing key when the parts are enough by count only |
| LoraFraming.Reassembler.Missing | drivers/lora/python/framing.py:105-108 | exactly the numbers below the count that have not arrived |
| LoraFraming.ReassemblesInAnyOrder | drivers/lora/python/framing.py:85-103 | fed in any order with any repeats, the message first completes when the last missing number arrives, and is the data |
| LoraArq.AwaitAck | drivers/lora/python/framing.py:138-149 | true as soon as the acknowledgement of this fragment to this node comes, false at the deadline |
| LoraArq.AckMatchesIff | drivers/lora/python/framing.py:138-149 | which bytes count as the awaited acknowledgement: mark, message and fragment number, and a destination that is this node or 255 |
| LoraArq.SendMessage | drivers/lora/python/framing.py:111-135 | the two loops, for anything the radio hears, end with the verdict and counters of the sender machine; without acknowledgements every fragment goes out once |
| LoraArq.RecvMessage | drivers/lora/python/framing.py:152-185 | the loop, for anything the radio hears, ends with the data, the acknowledgements sent if any are to be, and on a timeout the missing fragments |
| LoraArq.WantedIff | drivers/lora/python/framing.py:165-169 | which bytes count as a data frame for this node: mark, a whole header, and a destination that is this node or 255 |
| LoraArq.AcksAnswerFrames | drivers/lora/python/framing.py:152-185 | the acknowledgements of a call answer the wanted frames heard while listening one to one and in order, each with that frame's number and message and addressed to its source |
| LoraArq.RunKeepsInv | drivers/lora/python/framing.py:111-185 | every run with loss, repeats, reordering, and frames of other nodes and other messages keeps the invariant |
| LoraArq.PartsAreTrue | drivers/lora/python/framing.py:152-185 | the parts collected for this message are always true fragments of it |
| LoraArq.AckImpliesTaken | drivers/lora/python/framing.py:138-180 | an acknowledgement in flight that the sender would accept names a fragment the receiver has taken |
| LoraArq.ReturnedIsSent | drivers/lora/python/framing.py:152-185 | whatever is returned under this message's number is the data that was sent |
| LoraArq.DeliveredIsTaken | drivers/lora/python/framing.py:111-135 | a message reported as delivered had every fragment taken |
| LoraArq.DeliveredIsReturned | drivers/lora/python/framing.py:111-185 | if one undisturbed call of the receiver spans the sending, a message reported as delivered has been returned, once and whole |
| LoraArq.Accounting | drivers/lora/python/framing.py:123-135 | transmissions are retransmissions plus acknowledged fragments plus the one awaited, at most max_attempts for each fragment |
| LoraCounts.DeadlinesAreCounted | drivers/lora/python/framing.py:111-149 | retransmissions are the deadlines that passed without the awaited acknowledgement; a message is delivered exactly when all fragments were acknowledged while waited for, and lost exactly when max_attempts deadlines passed for one fragment |
| LoraRepeats.ReturnsAnyNumberOfTimesIff | drivers/lora/python/framing.py:111-185 | on a medium that may repeat frames, a message of any number of fragments can be returned any given number of times exactly when a transmission is allowed and the receiver is addressed |
| LoraRepeats.ReceiversIff | drivers/lora/python/framing.py:73-82 | with a transmission allowed a node can receive the message exactly when it has no address, its address agrees in eight bits, or the message goes to 255 |
| LoraRepeats.NeverHeard | drivers/lora/python/framing.py:111-185 | with no transmission allowed, or for another receiver, the message is never returned |
| LoraFifo.FifoIsRun | drivers/lora/python/framing.py:111-185 | every run on a medium that only loses frames is a run on the one that also repeats and reorders them, so all its guarantees hold |
| LoraFifo.RunKeepsFifoInv | drivers/lora/python/framing.py:111-185 | when frames arrive in order, each at most once, none is read after one with a higher number, and after a return only the last fragment is left to read |
| LoraFifo.ReturnsInOrderIff | drivers/lora/python/framing.py:111-185 | when frames are only lost and arrive in order, a message can be returned c times exactly when a transmission is allowed, the receiver is addressed, and either c is one or the message makes one fragment and c transmissions of it are allowed |
| LoraRaise.RaisedIff | drivers/lora/python/framing.py:93-185 | a call raises exactly when some wanted frame announces no more fragments than numbers have been heard since the message number last changed, some number below its count is not among them, and before it every wanted frame announced more than had been heard and no silent or wanted turn was late |
| LoraRaise.ListensIff | drivers/lora/python/framing.py:93-185 | a call is still listening exactly when no turn that was silent or brought a wanted frame was late, and at every wanted frame fewer numbers had been heard than it announced |
| LoraRaise.EndsWithFirst | drivers/lora/python/framing.py:93-185 | how a call ends is decided by the first turn that does not let it go on: it times out, raises or returns |
| LoraRaise.LatestIsHeld | drivers/lora/python/framing.py:93-98 | under each number a call holds the payload that came last under it |
| LoraRaise.FirstFrameRaisesIff | drivers/lora/python/framing.py:93-185 | a first wanted frame raises exactly when it announces a single fragment and is not number 0 |
| LoraRaise.NeverRaisedAlone | drivers/lora/python/framing.py:111-185 | however its fragments are lost, repeated and reordered and calls abandoned, a message whose receiver hears no other never makes a call raise |
| LoraTransfer.SimMedium.Carry | drivers/lora/python/lora_radio.py:140-154 | one transmission charges its airtime; every other radio hears the frame if its draw decodes and counts it as lost otherwise, the sender's own inbox stays as it is, and the dropped frames grow by the radios that missed it |
| LoraTransfer.SimRadio.Send | drivers/lora/python/lora_radio.py:167-174 | a frame above the MTU is refused and nothing changes, no inbox, counter or clock; any other goes out, and its airtime is charged to the sender |
| LoraTransfer.SimRadio.Recv | drivers/lora/python/lora_radio.py:176-186 | the oldest frame of the inbox, or nothing |
| LoraTransfer.GetsThroughIff | drivers/lora/python/lora_radio.py:129-138 | a draw from [0, 1) lets a transmission through exactly when the link is more than 6 draw - 3 dB above the floor |
| LoraTransfer.LoRaChannel.SendFragment | drivers/lora/python/lora_driver.py:121-137 | a fragment is sent until the first transmission that decodes, at most max_attempts times, and each transmission costs its airtime |
| LoraTransfer.LoRaChannel.Transfer | drivers/lora/python/lora_driver.py:100-154 | returns the whole buffer with crc_ok or empty bytes without it, the former exactly when every fragment got through within its attempts; retx is transmissions less fragments attempted, the airtime reported is what the medium's clock and the sender were charged, and the totals add up |
| LoraTransfer.StrongLinkDelivers | drivers/lora/python/lora_radio.py:129-138 | 3 dB above the floor every fragment gets through at its first transmission, whatever the random numbers |
| LoraTransfer.WeakLinkDeliversNothing | drivers/lora/python/lora_radio.py:129-138 | 3 dB below the floor no message gets through, whatever the random numbers and the limit |
| Fft.ReversedIncrement | drivers/usrp/include/lora.hpp:30-33 | the carry loop steps the bit-reversed counter |
| Fft.RevIsReversal | drivers/usrp/include/lora.hpp:30-35 | the counter that the carry loop steps is the index with its bits in reverse order |
| Fft.BitReverse | drivers/usrp/include/lora.hpp:30-35 | the swap loop puts every element at the index with its bits reversed |
| Fft.ButterflyBlock | drivers/usrp/include/lora.hpp:40-46 | the innermost loop replaces the pairs of one block by sum and difference with the powers of the root, and touches nothing else |
| Fft.BlockFromHalves | drivers/usrp/include/lora.hpp:40-46 | butterflies turn the transforms of two half blocks into the transform of the block |
| Fft.StagePass | drivers/usrp/include/lora.hpp:39-47 | a stage turns the transforms of all half-length blocks into those of all blocks |
| Fft.Run | drivers/usrp/include/lora.hpp:28-50 | over any commutative ring with roots of unity, the in-place algorithm computes the discrete Fourier transform, scaled by 1/n when inverse |
| Fft.InverseUndoesForward | drivers/usrp/include/lora.hpp:28-50 | the inverse transform undoes the forward one |
| Dft.EvalIsPowerSum | drivers/usrp/include/lora.hpp:28-50 | the evaluation that defines a bin is the sum of the inputs times powers of the root |
| Dft.InverseTransform | drivers/usrp/include/lora.hpp:28-50 | transforms for mutually inverse roots undo each other up to the factor n |
| Chirp.GenerateChirp | drivers/usrp/include/lora.hpp:53-62 | the samples are powers of the root of order 2N with the quadratic phase, turning the other way for a down-chirp |
| Chirp.PhaseSweeps | drivers/usrp/include/lora.hpp:53-62 | an up-chirp starts at phase 0 and advances by 2n + 1 - N units per sample, an even sweep across the band; a down-chirp undoes it |
| Chirp.ModSymbol | drivers/usrp/include/lora.hpp:65-69 | a symbol is the base chirp shifted cyclically by s |
| Chirp.DechirpIsTone | drivers/usrp/include/lora.hpp:53-79 | a symbol times the down-chirp is a constant times the N-th root to the power n s |
| Chirp.FindPeak | drivers/usrp/include/lora.hpp:78-86 | the first of the largest bins, and its ratio to the average |
| Chirp.DemodSymbol | drivers/usrp/include/lora.hpp:74-87 | the first peak of the transform of the dechirped samples, and its ratio to the average |
| Chirp.SymbolBins | drivers/usrp/include/lora.hpp:53-79 | the transform of a dechirped symbol is zero in every bin but bin s |
| Chirp.EverySymbolIsRecovered | drivers/usrp/include/lora.hpp:53-87 | for every N = 2^SF, every symbol s and any gain that does not vanish, s is the one and only peak, and the peak-to-average ratio is N |
| SymbolPacking.BitsToSymbols | drivers/usrp/include/lora.hpp:94-105 | the bits in groups of SF as numbers, the last group zero-padded |
| SymbolPacking.SymbolsToBits | drivers/usrp/include/lora.hpp:106-112 | the SF low bits of every symbol, cut to nbits when that is not zero |
| SymbolPacking.SymbolsFit | drivers/usrp/include/lora.hpp:94-105 | every symbol is below 2^SF |
| SymbolPacking.SymbolDigit | drivers/usrp/include/lora.hpp:94-105 | bit b of group q is the digit of weight 2^(SF-1-b) of symbol q |
| SymbolPacking.BitsRoundTrip | drivers/usrp/include/lora.hpp:94-112 | bits survive the trip through symbols for any length |

## Left out

- Floating point: metrics, channel values, messages and transform samples are exact, so rounding, overflow and the large
  finite number that stands for an unreached metric are not modelled; the start value of the minimum search is.
- LoraTransfer.LoRaChannel.Transfer: SNR readings and the rounding of the returned information are not modelled.
- LoraTransfer.SimMedium.Carry: the time on air of a frame is any function of its length, and the SNR and RSSI handed over
  with a frame are not modelled.
- LoraTransfer.SimRadio.Recv: the SNR and RSSI returned with a frame are not modelled.
- LoraArq.RecvMessage: SNR and RSSI readings, the sender's number and the airtime of acknowledgements are not modelled.
- LoraArq.SendMessage: the airtime it reports is not modelled.
- FecBlocks.EncodeBlock: the turbo branch is not modelled; turbo.hpp is not part of this model.
- FecBlocks.DecodeBlock: the turbo branch is not modelled.
- FecBlocks.SoftDecodeBlock: the turbo branch is not modelled.
- CodedPackets.ReservedLen: the turbo branch is not modelled.
- Gossip.ParseEdges: works on the comma-separated parts already read as blank, malformed or a pair of numbers; splitting the
  text is not modelled.
- SymbolPacking.BitsToSymbols: requires SF to be at least one; with SF = 0 the loop does not advance.
- TcpStar.RoundsAreExact: a hub whose produce() returns nothing, failing sockets (in TcpStar.Hub.CollectRound they are) and
  the accept timeout are not modelled, and neither is close(), which sends the same goodbye.
- PeerLink.RoundsMatch: nodes that stop producing before the others, connection errors, and the LoRa and wireless links of a
  node, which do not filter on the sender, are not modelled.
- StopAndWait.Sink.Receive: takes decoded bits; CodedArq.CodedSink puts the error correction in front of it. The printed
  bit-error diagnostic is not modelled.
- CodedArq.CodedRunIsPlain: requires chunks of one size, as the sink trims every burst to the coded length of such a chunk.
- Padding of the last chunk to a common size is done by main.cpp, which is not part of this model.
- The search for frame start and frequency offset in lora.hpp, the m-sequence and Zadoff-Chu preambles, OFDM, filters,
  synchronisation and the rest of the signal processing: their claims are numerical.
- Codec.pack and Codec.unpack, the array header, and the calculation of time on air: single-expression members.
- Sockets, serial and SPI radios, threads, sleeps, command lines, configuration, topology files and deployment.

# Verified model of the tight transport

`tight` is a reliable-UDP stack: it cuts messages into fragments with Reed-Solomon parities, numbers and acknowledges
them, encrypts them, and carries ordered commands beside them. This project models its core in Dafny and proves what
the parts promise, one by one and composed.

- Erasure code and messages: `Polynomials`, `Gf256`, `GfPolynomial`, `GfLinear`, `GaussJordan`, `ReedSolomon`,
  `ErasurePatterns`, `Vandermonde`, then `Fragmenter`, `Reassembler`, `EndToEnd`, `DeliveryRuns`. The main result is
  `DeliveryRuns.DeliveredWhenReady`: in every run exactly which arrival delivers a message of any size, with exactly its
  bytes, and that no other does.
- X25519: `Bits`, `Field25519`, `FieldInversion`, `FieldBytes`, `X25519`, `Curve25519`. The limb code computes the
  function of section 5 of RFC 7748, and that function is the multiple of a point on the curve.
- Acknowledgment: `SequenceNumbers`, `ReceiveWindow`, `CursorRuns`, `GiveUpRuns`, `RetransmissionOff`, `RetransmitBuffer`,
  `ResendRuns`, `AckProtocol`, `AckRuns`, `ReportCodec`. The main results are the meaning of the cursor in every interleaving,
  `AckRuns.AckExactly`, `AckProtocol.AckSoundness` and `ResendRuns.ResendBound`.
- Commands: `CommandChannel`, `CommandRuns`, `CommandGaps`, `CommandHolds`.
- Wire: `WireFormat`, `Crc32`, `Crc32Remainder`, `PacketCodec`, `GhashField`, `Gcm`, `GcmLaws`, `SealedPacket`, `NonceRuns`,
  `Sha256Compression`, `Sha256`, `Sha256Example`, and `WireDelivery`, which carries the delivery theorem down to datagrams.
- Queues and rates: `Fifo`, `BlockingQueue`, `CopyChannel`, `RateLimiter`, `Pacing`, `PacingProgress`.

Code that updates fields or buffers is a class or a method on arrays, proved against a function; the theorems are about
those functions and their runs. Clock readings, round-trip times, bandwidth estimates, the parity count (1 to 3) and the
AES block function are parameters.

Seven statements of the source about itself do not hold of its code, and the model follows the code. For each there is an
input and the exact condition.

- `tight/src/fec.cpp:146`, no square submatrix is singular: `CubeRootsSingular`, `WrappedIndexSingular`; it holds for any
  number of consecutive parities exactly under `Vandermonde.ConsecutiveExact`, for any two exactly under `PairExact`.
- `tight/src/report.cpp:54-55`, a given-up gap has already been skipped: `GivenUpWithoutSkip`; it holds exactly when reports
  are at most giveUp - loss apart, `GiveUpRuns.SkippedExactly`.
- `tight/src/report.cpp:60-61`, the arrival of a listed packet stops it from being listed: `ReorderedStillListed`; an arrival
  does so exactly under `AckRuns.ArrivalClearsExactly`, and `GapReceivedExactly` says which listed numbers were received.
- `docs/architecture.md:143`, consecutive command gaps each restart their window: `LaterGapWaitsLess`; it holds exactly under
  `CommandGaps.GapFullyAwaitedExactly`.
- `tight/src/command.hpp:8`, `tight/src/peer.hpp:96` and `tight/include/tight/tight.hpp:43`, an early command is held for at
  most three round trips: `SecondGapHeldLonger`; it holds exactly under `CommandHolds.HeldAtMostExactly`.
- `tight/src/transport.cpp:987`, nonces are unique in each direction: `ResetRepeats`, `ControlNoncesCoincide`; they repeat
  exactly under `NonceRuns.NoncesMeetExactly`.
- `tight/src/reassembler.cpp:103-105`, a legitimate sender passes the guard on the fragment count: `NarrowRefused`; exactly
  under `GuardPassesExactly`.

The comment at `tight/src/crypto.cpp:288`, that every output limb is below 2^51, is not relied on: the last carry goes into
limb 1, and the bounds of `Field25519` leave room for it.

## Model

| member | source | states |
|---|---|---|
| Gf256.MulComm | tight/src/fec.cpp:10-37 | field multiplication modulo x^8+x^4+x^3+x^2+1, defined bit by bit, is commutative |
| Gf256.MulAssoc | tight/src/fec.cpp:10-37 | and associative |
| Gf256.MulAddLeft | tight/src/fec.cpp:10-37 | and distributes over exclusive-or |
| Gf256.NoZeroDivisors | tight/src/fec.cpp:33-49 | a product is zero only if a factor is |
| Gf256.GInjective | tight/src/fec.cpp:10-25 | the first 255 powers of the generator 2 are pairwise different |
| Gf256.EveryNonZeroIsPower | tight/src/fec.cpp:10-25 | and every non-zero element is one of them, so the logarithm table is total |
| Gf256.NextPowerIsXTime | tight/src/fec.cpp:21-22 | shift and reduce is multiplication by the generator |
| Gf256.BuildFirstPeriod | tight/src/fec.cpp:16-23 | one period: exp holds the powers of the generator and log finds the exponent of each |
| Gf256.BuildTables | tight/src/fec.cpp:16-25 | the doubled exp table repeats with period 255 over all 512 entries |
| Gf256.TableMulIsMul | tight/src/fec.cpp:34-37 | the table product is the field product for all 65536 pairs |
| Gf256.TablePowIsPow | tight/src/fec.cpp:40-44 | the table power is repeated multiplication for every base and exponent, zero included |
| Gf256.TableInvIsInverse | tight/src/fec.cpp:47-49 | the table inverse times the element is one |
| GfPolynomial.MulIsProduct | tight/src/fec.cpp:10-37 | the product of two bytes is the one byte congruent to the product of their polynomials modulo x^8+x^4+x^3+x^2+1 |
| GaussJordan.MulAdd | tight/src/fec.cpp:60-72 | adds c times src into dst in place up to the shortest length, fast path for c = 1 included |
| GfLinear.SwapKeepsNull | tight/src/fec.cpp:151-154 | swapping two rows of the system keeps its solution set |
| GfLinear.ScaleKeepsNull | tight/src/fec.cpp:155-158 | scaling a row by a non-zero factor keeps it |
| GfLinear.AddScaledKeepsNull | tight/src/fec.cpp:159-166 | adding a multiple of another row keeps it |
| GaussJordan.FindPivot | tight/src/fec.cpp:148-150 | finds the first usable pivot, or there is none at or below the diagonal |
| GaussJordan.NoPivotSingular | tight/src/fec.cpp:148-150 | a column without a pivot means a non-trivial kernel |
| GaussJordan.NormalizePivot | tight/src/fec.cpp:156-158 | pivot row scaled to pivot one, columns already done stay unit, solution set kept |
| GaussJordan.EliminateColumn | tight/src/fec.cpp:160-166 | the column becomes a unit column in every row, solution set kept |
| GaussJordan.Reduce | tight/src/fec.cpp:147-167 | elimination succeeds if and only if the matrix is regular; then the matrix is the identity and the solutions are the same |
| ReedSolomon.EncodeInto | tight/src/fec.cpp:95-111 | parity p byte i is the sum of p-th powers of the points times byte i of every fragment, short fragments counting as zero-padded |
| ReedSolomon.ComputeSyndrome | tight/src/fec.cpp:132-140 | the syndrome is the parity minus the contribution of the present fragments |
| ReedSolomon.BuildSystem | tight/src/fec.cpp:130-144 | coefficient matrix and syndromes of the first m parities |
| ReedSolomon.Decode | tight/src/fec.cpp:113-174 | succeeds if and only if there are enough parities and the coefficient matrix is regular; then every missing slot is filled to width, no present one is changed, and the parities used are reproduced |
| ReedSolomon.SumSplits | tight/src/fec.cpp:126-129 | a parity sum splits into the parts of the present and of the missing fragments |
| ErasurePatterns.DecodedIsOriginal | tight/src/fec.cpp:113-174 | decoder soundness without any bound on fragments, parities or width: the filled slots are the original fragments, zero-padded |
| ErasurePatterns.CompletionUnique | tight/src/fec.cpp:169-173 | at most one completion reproduces the parities |
| ErasurePatterns.DecodeIsDecodeResult | tight/src/fec.cpp:113-174 | so the outcome of decoding is a function of its input |
| ErasurePatterns.SmallRowsExact | tight/src/fec.cpp:53-56 | parities with distinct indices among 0, 1, 2 repair a pattern if and only if the points of the missing fragments differ and, without parity 0, are non-zero |
| ErasurePatterns.UpTo255AlwaysRecoverable | tight/src/fec.cpp:146-150 | with at most 255 data fragments and parity indices among 0, 1, 2 no erasure pattern is singular |
| ErasurePatterns.PairExact | tight/src/fec.cpp:146 | for any two parities the exact condition is a non-zero determinant |
| ErasurePatterns.CubeRootsSingular | tight/src/fec.cpp:146 | the comment that no square submatrix is singular is false: parities 0 and 3 cannot repair fragments 0 and 213 |
| ErasurePatterns.WrappedIndexSingular | tight/src/fec.cpp:53-56 | nor can any two parities repair fragments 0 and 256, whose points coincide after the 8-bit cast |
| Vandermonde.ConsecutiveExact | tight/src/fec.cpp:146 | any number of consecutive parities repair as many missing fragments if and only if their points differ and, without parity 0, are not zero |
| Vandermonde.WeightsVanish | tight/src/fec.cpp:126-129 | a kernel vector of consecutive rows is orthogonal to every product of a power and linear factors of the points |
| WireFormat.Be32LowBits | tight/src/wire_format.hpp:22-25 | reading back a written number gives its low 32 bits |
| WireFormat.RoundTrip16 | tight/src/wire_format.hpp:19-21 | 16-bit numbers survive the round trip |
| WireFormat.RoundTrip64 | tight/src/packet_codec.cpp:23-26 | the session number survives its word-swapped encoding |
| Fragmenter.DataCountCovers | tight/src/fragmenter.cpp:53-54 | the fragments cover the stream and the last one is not empty |
| Fragmenter.Sender.NextMessageId | tight/src/fragmenter.cpp:38-41 | message numbers are 31 bits, never zero |
| Fragmenter.Sender.FragmentAndSend | tight/src/fragmenter.cpp:30-83 | sends exactly the packets of the message: padded pieces of prefix and payload, then the parities, with index, count, data count and real size |
| Reassembler.ReadPrefix | tight/src/reassembler.cpp:157-168 | reads the length prefix even when it crosses fragment boundaries |
| Reassembler.CopyOut | tight/src/reassembler.cpp:178-192 | copies the stream after the prefix, piece by piece |
| Reassembler.BuildMsg | tight/src/reassembler.cpp:151-193 | the message cut out of the concatenated pieces, with the error and truncation cases |
| Reassembler.CountPresent | tight/src/reassembler.cpp:145-148 | counts the present data fragments; the others are exactly the missing ones |
| Reassembler.CollectParities | tight/src/reassembler.cpp:222-228 | received parities with their indices, in order |
| Reassembler.TryAssemble | tight/src/reassembler.cpp:139-241 | delivers exactly what the assembly function says, nothing in every refusing branch |
| Reassembler.Receiver.HandleFragment | tight/src/reassembler.cpp:95-137 | one fragment changes the incoming and completed tables as the step function says |
| Reassembler.Receiver.Purge | tight/src/transport.cpp:1249-1265 | two erase loops remove exactly the entries and marks that have reached the timeout and keep the others unchanged |
| Reassembler.PurgesCompose | tight/src/transport.cpp:1249-1265 | purging often is purging once, at the latest of the times |
| EndToEnd.StreamRebuilds | tight/src/reassembler.cpp:151-193 | the padded pieces, each cut to its real size or taken at full width, concatenate to a stream that begins with prefix and payload |
| EndToEnd.ExtractRecovers | tight/src/reassembler.cpp:151-193 | from any stream that begins with prefix and payload, also one with zeros behind from a recovered last piece, exactly the payload comes out |
| EndToEnd.DecodesExactly | tight/src/reassembler.cpp:219-230 | for a message of any size the decoder returns what was sent exactly when the fragments are ready: at least k of them, no two missing data indices equal in their low eight bits, and none with all eight set unless parity 0 is there |
| EndToEnd.AssemblesExactly | tight/src/reassembler.cpp:139-241 | a set of fragments of a message of any size delivers exactly its payload if it is ready, and nothing otherwise |
| EndToEnd.ReadyGrows | tight/src/reassembler.cpp:206-230 | more fragments never make a ready set unready |
| DeliveryRuns.GuardPasses | tight/src/reassembler.cpp:103-112 | fragments of at least 64 bytes always pass the guard on the fragment count |
| DeliveryRuns.GuardPassesExactly | tight/src/reassembler.cpp:103-112 | all messages of a fragment width pass it if and only if the longest does |
| DeliveryRuns.NarrowRefused | tight/src/reassembler.cpp:103-112 | with an mtu of 53 a message of 8192 bytes does not |
| DeliveryRuns.RunTracks | tight/src/reassembler.cpp:95-137 | in every run, with other messages and purges interleaved, the tables hold exactly what was seen of the message |
| DeliveryRuns.DeliveredWhenReady | tight/src/reassembler.cpp:95-137 | in every run, for a message of any size and fragment width, the payload is delivered exactly by the arrival that makes its fragments ready, never earlier and never again while its mark is kept; and never if the guard does not admit it |
| DeliveryRuns.DeliveredExactlyOnce | tight/src/reassembler.cpp:95-137 | up to 255 data fragments: exactly at the arrival of the k-th distinct fragment |
| DeliveryRuns.DeliveredByThen | tight/src/reassembler.cpp:131-136 | once the arrived fragments are ready, the payload has been delivered |
| WireDelivery.EncryptedArrives | tight/src/transport.cpp:1013-1057 | an encrypted fragment arrives with bit 15 of its data count cleared, so as it was sent if and only if there are fewer than 0x8000 data fragments |
| WireDelivery.PlainArrives | tight/src/transport.cpp:604-609 | a plain one arrives as it was sent below 0x8000 data fragments; from there on it reads as encrypted, and without a key it is dropped |
| WireDelivery.FragmentArrives | tight/src/transport.cpp:1059-1111 | a fragment of a message that fits the wire is read back as that fragment, encrypted or not |
| WireDelivery.DatagramsDeliver | tight/src/transport.cpp:589-628 | in every run of datagrams the payload is delivered exactly by the datagram that makes the fragments carried so far ready |
| Bits.XorSwap | tight/src/crypto.cpp:333-340 | adding the same word twice by exclusive-or gives the other back, which is why the masked swap swaps |
| Field25519.FeAddResidue | tight/src/crypto.cpp:249-251 | limb addition is addition modulo p |
| Field25519.FeSubResidue | tight/src/crypto.cpp:253-262 | adding 2p and subtracting is subtraction modulo p and never underflows on the ladder bounds |
| Field25519.ProductFolds | tight/src/crypto.cpp:268-273 | folding the high columns with 19 keeps the product modulo p |
| Field25519.CarryChain | tight/src/crypto.cpp:274-283 | the six carries keep the value modulo p, fit 64 and 128 bits, and give tight limbs |
| Field25519.FeMul | tight/src/crypto.cpp:264-284 | limb multiplication is multiplication modulo p, without overflow, on all inputs the ladder can produce |
| Field25519.FeSq | tight/src/crypto.cpp:286 | squaring, same bounds |
| Field25519.FeMulScalar | tight/src/crypto.cpp:289-306 | multiplication by a small constant modulo p |
| FieldInversion.FeSqN | tight/src/crypto.cpp:308-311 | n squarings raise to the power 2^n |
| FieldInversion.FeInv | tight/src/crypto.cpp:316-331 | the addition chain raises to exactly the power 2^255-21 |
| FieldBytes.LoadLe64 | tight/src/crypto.cpp:172-176 | eight bytes as a little-endian number |
| FieldBytes.FeFromBytes | tight/src/crypto.cpp:178-186 | the limbs stand for the 255 low bits of the little-endian input |
| FieldBytes.CarryPass | tight/src/crypto.cpp:191-197 | one carry pass keeps the value modulo p and the bounds |
| FieldBytes.SubtractP | tight/src/crypto.cpp:199-207 | the borrow tells exactly whether the value is below p, and without borrow the difference is the value minus p |
| FieldBytes.Select | tight/src/crypto.cpp:209-213 | the mask selects one of the two without branching |
| FieldBytes.Pack | tight/src/crypto.cpp:214-246 | the 32 bytes are the little-endian digits of the limbs, straddling bytes included |
| FieldBytes.FeToBytes | tight/src/crypto.cpp:188-247 | writes the unique little-endian encoding below p of the value modulo p |
| FieldBytes.EncodeOfDecode | tight/src/crypto.cpp:172-247 | encoding undoes decoding on byte strings of full length |
| X25519.ClampValue | tight/src/crypto.cpp:360-364 | the clamped bytes stand for the clamped scalar of section 5 of RFC 7748 |
| X25519.ScalarBit | tight/src/crypto.cpp:375 | the bit read from byte t/8 is bit t of the scalar |
| X25519.FeCswap | tight/src/crypto.cpp:333-340 | conditional swap of two elements by masks, in place |
| X25519.LadderRound | tight/src/crypto.cpp:375-396 | one round on limbs refines one ladder step modulo p, all intermediate limbs in range |
| X25519.LimbLadder | tight/src/crypto.cpp:367-399 | the 255 rounds refine the ladder of the RFC |
| X25519.X25519 | tight/src/crypto.cpp:357-408 | for every scalar and coordinate the output is the encoding of x2 * z2^(p-2) mod p, and the result flag is true exactly when it is not zero |
| Curve25519.StepDoublesAndAdds | tight/src/crypto.cpp:380-395 | for every state, one round doubles the first point and adds the second, as polynomials modulo p with A = 486662 |
| Curve25519.TangentLaw | tight/src/crypto.cpp:380-395 | for a point on y^2 = x^3 + A x^2 + x the doubling is the tangent law of the curve |
| Curve25519.ChordLaw | tight/src/crypto.cpp:385-392 | for two points whose difference has x-coordinate u the differential addition is the chord law |
| Curve25519.LadderIsMultiples | tight/src/crypto.cpp:372-398 | after the scalar bits down to t the two points are the multiples by the number these bits form and by the next one, as fractions, up to a power of 4u in both parts |
| Curve25519.SharedSecretIsMultiple | tight/src/crypto.cpp:357-408 | for the bytes of two keys the result is the quotient of the coordinates of the multiple by the clamped key |
| ReceiveWindow.ReceiveState.HandleSequence | tight/src/reassembler.cpp:67-92 | one data number updates cursor, received set and missing table as the step function says |
| ReceiveWindow.ReceiveState.SkipOver | tight/src/report.cpp:34-42 | skipping moves the cursor only from the gap it stands at, then over what was received |
| ReceiveWindow.ReceiveState.ScanGaps | tight/src/report.cpp:44-68 | the gap loop in increasing order: refusal, give-up, loss and skip branches |
| ReceiveWindow.ReceiveState.Report | tight/src/report.cpp:26-91 | a report: acknowledgment, losses and new state |
| CursorRuns.CursorInvariant | tight/src/reassembler.cpp:67-92 | in every interleaving of data and reports the cursor is the least number from the first on that was neither received nor skipped, and the kept set is exactly the received numbers above it |
| CursorRuns.CursorNeverDecreases | tight/src/reassembler.cpp:67-92 | the cursor never moves back |
| CursorRuns.GapPassedExactly | tight/src/report.cpp:44-68 | exactly when a report moves the cursor past the gap it stands at |
| CursorRuns.GivenUpWithoutSkip | tight/src/report.cpp:53-58 | the comment that a given-up gap has already been skipped is false: a gap whose age jumps over both limits between two reports is dropped and stays |
| AckRuns.AckExactly | tight/src/report.cpp:81 | in every run, for every report: it acknowledges the one number such that everything from the first number to it was received or skipped and the next one was neither; 0 before any data |
| AckRuns.ReportListsExactly | tight/src/report.cpp:44-68 | every report lists, in increasing order, exactly the gaps between the two thresholds, and none with retransmission off |
| AckRuns.EvictsLowest | tight/src/report.cpp:70-72 | eviction keeps the 4096 highest gaps |
| AckRuns.ReportReleases | tight/src/report.cpp:156-178 | in every reachable state, a report made and delivered leaves the sender only numbers above the acknowledgment or listed, and the acknowledgment reaches to the end of every stretch received without a break |
| AckRuns.ArrivalClearsExactly | tight/src/reassembler.cpp:71-92 | an arrival takes its number out of the gap table if and only if it comes below the cursor |
| AckRuns.GapReceivedExactly | tight/src/reassembler.cpp:71-92 | in every run a number in the gap table was received if and only if it has arrived since it was marked, each time at or above the cursor |
| AckRuns.ReorderedStillListed | tight/src/report.cpp:59-62 | after 1, 4, 3, 2 a report lists 2 and 3 as lost |
| GiveUpRuns.GivenUpWasSkipped | tight/src/report.cpp:53-66 | in every run with fixed thresholds and without eviction, if reports are at most giveUp - loss apart and the first comes as soon after the first data, whatever a report gives up lies below the cursor |
| GiveUpRuns.LateGivesUp | tight/src/report.cpp:53-58 | for any larger spacing there is a run whose report gives up the gap at the cursor |
| GiveUpRuns.SkippedExactly | tight/src/report.cpp:53-58 | so the comment holds of all runs of a spacing if and only if loss + spacing is at most giveUp |
| GiveUpRuns.StopsElsewhere | tight/src/report.cpp:44-68 | a scan never leaves the cursor at a gap that it could have skipped |
| RetransmissionOff.ReportSettles | tight/src/report.cpp:44-52 | with retransmission off, each report lists nothing, empties both tables and puts the cursor one past the highest number received |
| RetransmitBuffer.Buffer.Snapshot | tight/src/report.cpp:156-167 | the packets to resend |
| RetransmitBuffer.Buffer.Prune | tight/src/report.cpp:168-177 | removes exactly the acknowledged and the exhausted entries |
| RetransmitBuffer.Buffer.ResendAll | tight/src/report.cpp:180-189 | counts one retry for each resent entry |
| RetransmitBuffer.Buffer.HandleReport | tight/src/report.cpp:149-189 | the buffer after a report, and what was resent |
| RetransmitBuffer.AfterReport | tight/src/report.cpp:156-189 | after a report every survivor is above the acknowledgment or listed, and those at or below it are exactly the ones just resent |
| ResendRuns.ResendBound | tight/src/report.cpp:156-189 | over any sequence of sends, removals and reports with any acknowledgment and any losses, no packet is resent more than ten times |
| ResendRuns.TenResends | tight/src/report.cpp:156-189 | the bound is reached: ten reports resend a packet once each, the eleventh lets go of it |
| ResendRuns.ResendBoundApart | tight/src/transport.cpp:1104-1110 | with the two steps of a send apart: at most ten times more for each time that the second step has put the packet back |
| ResendRuns.SurvivorsOfReport | tight/src/report.cpp:156-189 | after each report of any run, survivors are above the acknowledgment or listed, those at or below it are exactly the ones just resent, and the removed ones were acknowledged or resent ten times |
| ResendRuns.RunMatches | tight/src/report.cpp:180-189 | in every run the retry count of a buffered packet is the number of times it was resent |
| AckProtocol.BenignReport | tight/src/report.cpp:44-91 | without give-up or eviction a report lists exactly the overdue gaps and passes only received or overdue numbers |
| AckProtocol.ActSound | tight/src/report.cpp:149-189 | every step of sender, receiver and a network that loses, repeats and reorders keeps the soundness invariant |
| AckProtocol.AckSoundness | tight/src/report.cpp:156-178 | in every reachable state a data packet the sender no longer holds was received, precedes the receiver's first number, or was resent ten times |
| ReportCodec.BuildPayload | tight/src/report.cpp:93-110 | writes the report bytes |
| ReportCodec.ReadPayload | tight/src/report.cpp:113-154 | reads them, with the refusals of short reports and the optional bandwidth |
| ReportCodec.ReportRoundTrip | tight/src/report.cpp:93-154 | what is read is what was meant: acknowledgment, ratio, the low 32 bits of the bandwidth and the losses that fit |
| ReportCodec.PayloadLayout | tight/src/report.cpp:93-110 | where acknowledgment, ratio, count, losses and bandwidth stand |
| CommandChannel.CommandState.DrainHeld | tight/src/command.cpp:56-64 | hands out the run of held commands that follows the cursor |
| CommandChannel.CommandState.ExpireHeld | tight/src/command.cpp:66-80 | skips to the first held command once the wait is over |
| CommandChannel.CommandState.HandleCommand | tight/src/command.cpp:11-37 | one arrival: dropped, delivered with its successors, or held |
| CommandChannel.CommandState.FlushExpired | tight/src/command.cpp:39-45 | the periodic expiry check |
| CommandChannel.CommandState.Reset | tight/src/command.cpp:47-54 | back to a fresh channel in both directions |
| CommandRuns.RunGood | tight/src/command.cpp:11-80 | in every run between resets: numbers come out strictly increasing, and the accepted first copies are exactly the delivered and the held ones, payloads included |
| CommandRuns.DeliveredOnceInOrder | tight/src/command.cpp:11-80 | every delivered command has a smaller number than all later ones and the payload of its first accepted copy |
| CommandRuns.DrainContents | tight/src/command.cpp:56-64 | draining loses nothing |
| CommandRuns.PassedExactly | tight/src/command.cpp:66-80 | a number is passed over exactly when the wait is over and it lies before everything held |
| CommandRuns.GapWaits | tight/src/command.cpp:66-80 | a gap is passed only after the hold buffer has been non-empty for three round trips |
| CommandRuns.LaterGapWaitsLess | tight/src/command.cpp:25-28 | a single gap may wait less: the in-order branch does not restart the wait, and a number is passed 1 ms after its gap appears |
| CommandGaps.GapFullyAwaitedExactly | tight/src/command.cpp:25-35 | in every run a number at the front is sure of a window of three round trips of its own, from the event that opened its gap, if and only if the buffer was empty at that event, or the running wait had been started at the same clock reading, or an expiry has restarted it since |
| CommandGaps.WaitOf | tight/src/command.cpp:32-34 | unless one of these restarted it, the wait of an open gap is the one that was running when it opened |
| CommandHolds.ReleasedExactly | tight/src/command.cpp:66-80 | an expiry check hands out a held command if and only if the wait is over and no gap lies between it and the first held one |
| CommandHolds.HeldAtMostExactly | tight/src/command.cpp:66-80 | in every run a held command is sure to come out at the first expiry check that finds it held for three round trips if and only if no gap lies between it and the first held one and no expiry has restarted the wait since it was held |
| CommandHolds.SecondGapHeldLonger | tight/src/command.hpp:7-11 | behind a second gap a command is still held after almost six round trips |
| CommandHolds.DeliveredOnArrivalExactly | tight/src/command.cpp:18-34 | an arrival hands out its own command if and only if it is the first, or the expected one, or early and released at once |
| CommandHolds.FirstDeliveredAtOnce | tight/src/command.cpp:18-28 | in every run the first numbered command is delivered by its own arrival, whatever its number |
| CommandRuns.ExpiryDelivers | tight/src/command.cpp:73-79 | each expiry delivers at least one command and leaves fewer held |
| CommandRuns.HeldDrains | tight/src/command.cpp:66-80 | the buffer is empty after at most as many expiries as it held commands |
| Crc32.BuildTable | tight/src/crc32.cpp:13-21 | entry i is i shifted eight times through the register |
| Crc32Remainder.ShiftIsTimesX | tight/src/crc32.cpp:17 | one step of the register multiplies by x modulo the generator of IEEE 802.3, given by its exponents |
| Crc32.TableStepIsSerial | tight/src/crc32.cpp:28 | one table step is eight bit-by-bit steps, for every register and byte |
| Crc32.Update | tight/src/crc32.cpp:25-31 | the table loop computes the bit-by-bit register of CRC-32 |
| Crc32.Compute | tight/src/crc32.cpp:33-35 | preset and final complement of IEEE 802.3 |
| Crc32Remainder.ChecksumIsRemainder | tight/src/crc32.cpp:25-35 | the checksum is the one word that is, preset and complement included, the remainder of the message times x^32 modulo the generator |
| Crc32Remainder.MessageBit | tight/src/crc32.cpp:25-31 | in that message bit k of byte j, lowest first, is the coefficient of x^(8n - 1 - (8j + k)) |
| Crc32.SerialIsShift | tight/src/crc32.cpp:25-31 | feeding bits one at a time equals adding them first |
| Crc32.RegisterConcat | tight/src/packet_codec.cpp:118-122 | the checksum may be computed in pieces |
| Crc32.ShiftNInjective | tight/src/crc32.cpp:13-21 | the register never merges two states |
| Crc32.BurstDetected | tight/src/crc32.cpp:25-35 | any change confined to four consecutive bytes changes the checksum |
| PacketCodec.HeaderRoundTrip | tight/src/packet_codec.cpp:12-46 | every header field is read back from the written header |
| PacketCodec.DatagramLayout | tight/src/packet_codec.cpp:29-45 | where every field and the payload stand in a datagram |
| PacketCodec.EncodeHeaderTo | tight/src/packet_codec.cpp:12-46 | writes the 48 header bytes and nothing else |
| PacketCodec.FinalizeCrc | tight/src/packet_codec.cpp:48-55 | stores the checksum of the first size bytes with a zero checksum field and leaves the rest; short sizes change nothing |
| PacketCodec.EncodeTo | tight/src/packet_codec.cpp:57-66 | writes the encoded datagram at the start of the buffer, leaves the rest and returns its size |
| PacketCodec.Encode | tight/src/packet_codec.cpp:68-72 | the same into a new buffer |
| PacketCodec.Decode | tight/src/packet_codec.cpp:74-127 | accepts and refuses exactly as the parse function says, computing the checksum in three pieces; on refusal the payload is untouched and the header is read only if magic and version are right |
| PacketCodec.RoundTrip | tight/src/packet_codec.cpp:57-127 | decoding an encoded packet returns header and payload, whatever bytes follow |
| PacketCodec.AcceptedDiffer | tight/src/packet_codec.cpp:116-126 | two accepted datagrams with the same length field never differ in at most four consecutive bytes of header, checksum or payload |
| PacketCodec.ChangedByteRejected | tight/src/packet_codec.cpp:116-126 | changing one byte of an encoded packet outside the length field makes decoding fail |
| Gcm.CarryIsInc32 | tight/src/crypto.cpp:600-603 | the bytewise carry loop adds one to the last 32 bits modulo 2^32 |
| Gcm.Increment | tight/src/crypto.cpp:600-603 | increments the counter block in place |
| Gcm.Crypt | tight/src/crypto.cpp:594-611 | counter mode: byte i is added to byte i mod 16 of the cipher of counter i/16 + 1 |
| Gcm.CryptedTwice | tight/src/crypto.cpp:594-611 | applying it twice gives the input back |
| GhashField.TimesXIsShift | tight/src/crypto.cpp:545-551 | the bytewise shift with its reduction multiplies by x modulo x^128 + x^7 + x^2 + x + 1 |
| GhashField.GhashMulIsProduct | tight/src/crypto.cpp:537-553 | the product is the one block congruent to the product of the two polynomials |
| Polynomials.ResidueUnique | tight/src/crypto.cpp:536 | congruent polynomials of degree below that of the modulus are equal |
| GhashField.Multiply | tight/src/crypto.cpp:537-553 | the 128-step loop computes that product in place |
| Gcm.GhashUpdate | tight/src/crypto.cpp:555-567 | absorbs a string as if padded with zeros to whole blocks |
| Gcm.GhashConcat | tight/src/crypto.cpp:576-587 | absorbing in parts is absorbing the concatenation |
| Gcm.ComputeTag | tight/src/crypto.cpp:569-592 | the tag of section 7.1 of NIST SP 800-38D over padded data, padded ciphertext and lengths, with GHASH in its field |
| GcmLaws.TagInputParts | tight/src/crypto.cpp:578-587 | the authenticated data stands at the start of what is hashed, the ciphertext behind its whole blocks, and the last 16 bytes are both lengths in bits |
| GcmLaws.BitCountReads | tight/src/crypto.cpp:581-586 | each of which reads back as eight times the length |
| GcmLaws.TagInputInjective | tight/src/crypto.cpp:578-587 | so what is hashed determines both |
| GcmLaws.GhashIsPowerSum | tight/src/crypto.cpp:555-567 | the hash is congruent to the start value times H^n and the blocks times falling powers of H |
| GcmLaws.TagIsPolynomial | tight/src/crypto.cpp:569-592 | the tag is the one block congruent to that sum and the cipher of the nonce and 1 |
| GcmLaws.TagsMeetExactly | tight/src/crypto.cpp:569-592 | two tags under one nonce are equal if and only if the two sums agree at the hash key |
| GcmLaws.CryptedClosed | tight/src/crypto.cpp:594-611 | byte i is encrypted with the cipher of the nonce and i/16 + 2 |
| GcmLaws.CountersMeetExactly | tight/src/crypto.cpp:594-611 | two counter blocks coincide if and only if they have one nonce and are a multiple of 2^32 apart |
| Gcm.SameTag | tight/src/crypto.cpp:643-646 | the comparison without early exit decides equality |
| Gcm.Encrypt | tight/src/crypto.cpp:615-629 | what it produces opens to the plaintext |
| Gcm.Decrypt | tight/src/crypto.cpp:631-649 | gives the plaintext exactly when the tag is right |
| SealedPacket.NonceIdentifies | tight/src/transport.cpp:991-1008 | two packets share a nonce if and only if they have the same client, type and number (or message and fragment), or one is a command and the other has type 0, fragment index 0x0A00 and the same number |
| SealedPacket.ControlNoncesCoincide | tight/src/transport.cpp:909-931 | so control packets of one type and client, which are sealed only when a report makes them resent, share one nonce whatever their number and payload |
| NonceRuns.NextId | tight/src/fragmenter.cpp:39-41 | the message with ordinal t gets id t mod (2^31 - 1) + 1 |
| NonceRuns.NoncesMeetExactly | tight/src/transport.cpp:987-1008 | in every run of a sender under one key, two sealed packets share a nonce if and only if they are the same place in messages a multiple of 2^31 - 1 apart, commands of equal number in any sessions, or control packets of one type |
| NonceRuns.UniqueBeforeReset | tight/src/transport.cpp:987-1008 | within 2^31 - 1 messages and 2^32 commands, without a reset and with no control packet sealed, only a resend repeats a nonce |
| NonceRuns.ResetRepeats | tight/src/command.cpp:47-54 | a handshake between two commands repeats the nonce of the first |
| SealedPacket.BuildWirePacket | tight/src/transport.cpp:1013-1036 | the datagram on the wire, encrypted or not |
| SealedPacket.DecryptPayload | tight/src/transport.cpp:1039-1057 | writes the header out again, opens the payload with its first 44 bytes and restores size and flags |
| SealedPacket.ChangedHeaderOpensExactly | tight/src/transport.cpp:1039-1057 | a sealed payload opens under another header of the same nonce if and only if the two power sums agree, whose inputs differ unless the 44 header bytes are the same |
| SealedPacket.EncryptedRoundTrip | tight/src/transport.cpp:1013-1057 | decoding and decrypting a built packet returns payload and header with bit 15 of the flags cleared, so the same header exactly when that bit was clear |
| SealedPacket.PlainRoundTrip | tight/src/transport.cpp:1013-1036 | without encryption the packet comes back as it was sent |
| Sha256.Context.Update | tight/src/crypto.cpp:71-85 | takes in any number of bytes; state and buffer together always stand for everything taken in |
| Sha256.Context.Finish | tight/src/crypto.cpp:87-98 | the state after the message padded as section 5.1.1 of FIPS 180-4 says |
| Sha256Compression.BuildSchedule | tight/src/crypto.cpp:43-54 | the 64 schedule words of section 6.2.2 |
| Sha256Compression.CompressBlock | tight/src/crypto.cpp:42-69 | the 64 rounds on eight variables compute the compression function of section 6.2.2 |
| Sha256.Digest | tight/src/crypto.cpp:135-141 | the digest of a message given in any pieces |
| Sha256Example.InitialIsRoots | tight/src/crypto.cpp:39-40 | the initial words are the first 32 fractional bits of the square roots of the first eight primes |
| Sha256Example.ConstantsFrom0 | tight/src/crypto.cpp:14-27 | round constants 0 to 7 are those of the cube roots of the first eight primes; ConstantsFrom8 to ConstantsFrom56 say it of the others |
| Sha256Example.AbcDigest | tight/src/crypto.cpp:135-141 | the digest of abc is the one the standard publishes |
| Sha256.FewestZeros | tight/src/crypto.cpp:91-92 | the padding loop stops after exactly the fewest zeros |
| Sha256.HashChunks | tight/src/crypto.cpp:71-104 | any way of cutting a message into updates gives the state of the whole message, for any compression function |
| Fifo.RunsInOrder | tight/include/tight/blocking_queue.hpp:35-83 | over every sequence of calls: accepted items are exactly those handed out followed by those queued, in order, and a capacity is respected |
| Fifo.ClosedOnlyDrains | tight/include/tight/blocking_queue.hpp:85-90 | a closed queue stays closed and accepts nothing more |
| BlockingQueue.BlockingQueue.ObtainNode | tight/include/tight/blocking_queue.hpp:117-126 | a detached node from the free list or a new one; the queue is unchanged |
| BlockingQueue.BlockingQueue.RecycleNode | tight/include/tight/blocking_queue.hpp:129-138 | a node goes to the free list only below 64 entries; live and recycled nodes stay disjoint and acyclic |
| BlockingQueue.BlockingQueue.LinkTail | tight/include/tight/blocking_queue.hpp:141-149 | appends the item |
| BlockingQueue.BlockingQueue.UnlinkHead | tight/include/tight/blocking_queue.hpp:152-161 | takes the first item and recycles its node |
| BlockingQueue.BlockingQueue.Push | tight/include/tight/blocking_queue.hpp:35-49 | refines offering to the bounded queue, when its wait ends |
| BlockingQueue.BlockingQueue.TryPush | tight/include/tight/blocking_queue.hpp:51-59 | refines offering to the bounded queue |
| BlockingQueue.BlockingQueue.Take | tight/include/tight/blocking_queue.hpp:61-68 | refines taking, when its wait ends; nothing only when closed and empty |
| BlockingQueue.BlockingQueue.TakeFor | tight/include/tight/blocking_queue.hpp:70-77 | refines taking, or gives up unchanged |
| BlockingQueue.BlockingQueue.Poll | tight/include/tight/blocking_queue.hpp:79-83 | refines taking |
| BlockingQueue.BlockingQueue.Close | tight/include/tight/blocking_queue.hpp:85-90 | closes and changes nothing else |
| BlockingQueue.Drive | tight/include/tight/blocking_queue.hpp:35-161 | any sequence of calls goes through the states of the bounded queue |
| CopyChannel.CopyChannel.Send | gateway/gateway_channel.hpp:41-73 | refines offering, when its wait ends; dropped when closed |
| CopyChannel.CopyChannel.TrySend | gateway/gateway_channel.hpp:75-88 | refines offering |
| CopyChannel.CopyChannel.Recv | gateway/gateway_channel.hpp:90-104 | refines taking, when its wait ends |
| CopyChannel.CopyChannel.TryRecv | gateway/gateway_channel.hpp:106-117 | refines taking |
| CopyChannel.CopyChannel.SwapOut | gateway/gateway_channel.hpp:119-133 | returns everything in order and leaves head equal to tail |
| CopyChannel.CopyChannel.Close | gateway/gateway_channel.hpp:135-142 | closes and changes nothing else |
| CopyChannel.Drive | gateway/gateway_channel.hpp:41-133 | any sequence of calls goes through the states of the bounded queue |
| RateLimiter.Limiter.Check | gateway/gateway_ratelimit.hpp:33-67 | charges exactly the bucket of device and dimension and reports its whole tokens; unknown dimensions are allowed and change nothing |
| RateLimiter.AllowedExactly | gateway/gateway_ratelimit.hpp:48-66 | a check allows a cost if and only if capacity and tokens, with what was earned since the last refill, cover it |
| RateLimiter.WindowBound | gateway/gateway_ratelimit.hpp:33-67 | for every interleaving of calls after the clock's epoch, if no configured dimension ends with a colon and another, at most capacity + rate * length is granted to a device in a dimension in any window |
| RateLimiter.KeyOfOneDimension | gateway/gateway_ratelimit.hpp:45 | under that condition a key belongs to one dimension |
| RateLimiter.SharedKeyRefills | gateway/gateway_ratelimit.hpp:45 | for any two names of which one ends with a colon and the other, some devices share a bucket and the bound fails |
| RateLimiter.EpochRefills | gateway/gateway_ratelimit.hpp:48-51 | at the epoch itself the bucket is filled again at every check and the bound fails |
| RateLimiter.EpochExactly | gateway/gateway_ratelimit.hpp:48-66 | with unambiguous names and a fixed configuration the bound holds for every interleaving from a start time if and only if that time is after the epoch or the capacity is below one |
| RateLimiter.BoundHoldsExactly | gateway/gateway_ratelimit.hpp:33-67 | for a set of dimension names: the bound holds for all non-negative rates and capacities, devices, interleavings and windows from a start time if and only if that time is after the epoch and no name ends with a colon and another |
| RateLimiter.DefaultsBounded | gateway/gateway_ratelimit.hpp:21-26 | so it holds of every run of a limiter with the default dimensions |
| Pacing.Sender.Refill | tight/src/transport.cpp:552-563 | refills for the elapsed time up to four datagram sizes |
| Pacing.Sender.DrainSender | tight/src/transport.cpp:528-550 | at most 64 rounds, stopping only when idle or out of tokens |
| Pacing.SentBound | tight/src/transport.cpp:528-563 | in every window of every run, with datagrams queued at any time and after any idle stretch, bytes sent are at most 4 * mtu plus what the time between the earliest and the latest clock reading of the window is worth |
| Pacing.BurstBound | tight/src/transport.cpp:558-562 | at one clock reading at most 4 * mtu, however long nothing was sent before |
| PacingProgress.SentExactly | tight/src/transport.cpp:528-563 | a round sends the first datagram in line if and only if its peer is reachable, it has at most 4 * mtu bytes and the tokens with what the time since the last refill earned cover it |
| PacingProgress.HeadLeaves | tight/src/transport.cpp:552-563 | so it leaves at the first round after its bytes are earned |
| PacingProgress.OversizeBlocks | tight/src/transport.cpp:540-548 | in every run a reachable datagram of more than 4 * mtu bytes at the head blocks the line for good |
| PacingProgress.SentAtLeast | tight/src/transport.cpp:528-563 | in every window whose refills the cap does not cut, bytes sent and tokens left are at least the tokens before and what the time between the refills is worth |
| PacingProgress.KeepsUp | tight/src/transport.cpp:528-563 | such a window that ends with a datagram waiting is behind by less than that datagram |
| PacingProgress.FrequentRoundsCredited | tight/src/transport.cpp:552-563 | and the cap does not cut a refill that earns no more than it leaves above a waiting datagram |
| Pacing.Sender.SendRaw | tight/src/transport.cpp:1115-1118 | queues a datagram for a reachable peer unless the queue is full |
| Pacing.NothingLost | tight/src/transport.cpp:528-550 | what has left, sent or dropped, and what is in line make up what was in line at the start and everything accepted since, in order |

## Left out

- Sockets, threads, timers, logging, configuration, HTTP metrics: input and output or thin wrappers.
- Handshake state machine, sessions, listeners, blackboard and JSON parsing of the gateway: mostly single-branch facts.
- The AES rounds are a parameter, and HMAC and HKDF are not modelled: they would only add definitions to follow.
- That two X25519 parties agree, and that the power p - 2 inverts: they need the group laws and that p is prime.
- The strength of AES and GHASH: it needs cryptographic assumptions.
- The entropy formula for the parity count and the bandwidth estimator: floating point; any count from 1 to 3 and any rate
  are covered.
- Late-packet statistics, probe trains and clock synchronisation.
- ReceiveWindow.ReceiveState.HandleSequence: numbers stay below 2^32 - 1, because the source adds one without handling the
  wrap-around and its ordering comparisons mean nothing after it.
- CommandChannel.CommandState.HandleCommand: the same.
- Reassembler.TryAssemble: the data count of an entry is at most its total count, because beyond that the source indexes
  outside its vectors.
- Reassembler.Receiver.HandleFragment: the same, for the flags and count of a packet.
- AckProtocol.AckSoundness: assumes retransmission on, a fixed round-trip threshold, no give-up, no eviction at 4096 entries,
  no purge of a dead link and at most 256 losses per report, because without these the code does forget packets; a send is
  one step; the second step that records its size is in ResendRuns.ResendBoundApart only.
- GcmLaws.TagInputInjective: strings below 2^61 bytes, the limit of the 64-bit length fields.
- PacingProgress.SentAtLeast: refills that the cap cuts lose what they cut.
- ResendRuns.ResendBound: a send is one step; ResendRuns.ResendBoundApart has it in two.
- GiveUpRuns.SkippedExactly: assumes retransmission on, fixed thresholds and no eviction; an evicted gap is not given up by
  this branch.
- WireDelivery.DatagramsDeliver: fewer than 0x8000 data fragments, because from there on the data count overlaps the encryption
  mark (WireDelivery.EncryptedArrives and PlainArrives say what arrives then), and room for the tag in the 16-bit length.
- NonceRuns.NoncesMeetExactly: packets sealed under one key; that a new key pair of the other side changes it is not
  modelled.
- DeliveryRuns.DeliveredWhenReady: fragment counts fit their 16-bit fields, and the entry and mark of the message are not
  purged.
- PacketCodec.ChangedByteRejected: says nothing about a shortened length field, where a checksum can only be probable.
- SealedPacket.BuildWirePacket: requires that payload and tag fit the 16-bit length field, because beyond that the source
  writes outside its buffer.
- Sha256.Context.Finish: the message length is an unbounded number; the source keeps its low 61 bits.
- BlockingQueue.BlockingQueue.Push: blocking is modelled by the condition it waits for; fairness and wake-up are not.
- CopyChannel.CopyChannel.Send: the same.
- RateLimiter.WindowBound: amounts are real numbers, so the rounding of doubles is not modelled; rate and capacity are not
  negative, and Configure is not called during the run.
- Pacing.SentBound: the same, and the blocking sender thread that shares the bucket is not modelled.

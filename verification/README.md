# Verified model of the power-quality monitor's algorithms

This Dafny project models the self-contained algorithms of the PQM power-quality monitor and proves what
they are for: its MD5 sums, the framing of its communication protocol, its IRIG-B clock decoder, the
ten-cycle windowing, sliding RMS and resampling of samples over the mask-indexed ring buffer, the index and
transfer of transient events, the interharmonic record, and the packed-pixel copy of its display.
`dafny verify dfyconfig.toml` checks all of it with Dafny 4.11.

The code under study changes buffers and fields step by step, so the operations are methods of classes or
methods over arrays, each proved against a specification function; the laws are lemmas about those functions.

| files | subject |
|---|---|
| `Md5Reference`, `Md5Rounds`, `Md5`, `Md5Sum` | RFC 1321 as a table-driven reference; the 64 unrolled steps; the buffered writer and the finalisation; the printed sum |
| `PqbFrame`, `PhyPrtclPqB`, `PqbReceiver`, `PqbStream`, `PqbLoss`, `PqbCases`, `PqbBytes`, `PqbPack` | frames with an Adler-32 (RFC 1950, sections 2.2 and 8.2); the receiver as a function of its buffer and as a class over the caller's array; streams cut into reads; when frames are lost, with two streams that lose one; what single bytes of a frame do; the sender and the round trip |
| `IrigB`, `IrigBSync`, `IrigBFault`, `AppPrtclGps` | the symbol decoder (IRIG Standard 200-04, chapter 6, format B), self-stabilisation, faults, the protocol object and its plausibility gate |
| `LoopBuffer`, `SlidingRms`, `SlidingRuns`, `TenCycle`, `TenCycleCases`, `Interpolate` | the ring buffer; the sliding sum of squares, for one call and for many; windows of ten cycles with the ten-minute restart (IEC 61000-4-30, section 4.5), and a restart within a block; resampling |
| `TransientLog`, `TransientPackages`, `TransientTransfer`, `TransientCursor`, `TransientCases` | the capped binary search over the circular event log; event slots and packages; a transfer as a state that requests change; the cursor that does so in place; two transfers that go wrong |
| `InterRecord`, `InterBytes`, `InterLimit`, `InterStruct` | interharmonics to record; the bytes of a record and a reader for them; the limit check; the encoder in its buffer |
| `PackedPixels`, `VgaBlit` | pixels in bytes; the three-part copy and the rectangle update |
| `Arithmetic`, `Bits`, `Bytes`, `Sequences` | sums and products, C's bitwise operators on integers, the byte type, laws of concatenation |

## What the proofs found

Each of these is a lemma or a contract with the exact condition, not a change to the modelled code.

- The MD5 length counter holds 2^32 blocks, so the padding is the standard's for messages under 2^38 bytes and
  again whenever the length modulo 2^61 is under 2^38 (`Md5Sum.CountIsStandard`). The comment of `md5_final` that
  the handle is ready for a new cycle does not hold: the handle is that of an empty message only if the length modulo
  2^38 is one of the last eight values and the digest happens to be the initial value (`Md5.Context.Final`).
- A read that completes a frame and ends exactly one byte behind it keeps a byte that was never received: the next
  frame is accepted if and only if that byte is 0x5c (`PqbLoss.OneByteOver`; a stream that loses a frame is
  `PqbCases.CutBehindOneByte`). A first read of one byte has the same effect (`PqbLoss.FirstByte`), and a ninth frame
  in one read drops all that follows it (`PqbLoss.NinthFrame`, `PqbCases.TenAtOnce`).
- A head that states a body of more than 2048 bytes empties the receiver, so all that follows it in the read is lost;
  the next line is received as by an empty receiver (`PqbBytes.TooLong`).
- A symbol that was not received spoils less than it could: the decoder still hands over the bits in front of it,
  with all later ones zero (`IrigBFault.FaultInFrame`). In one of the two markers between frames it delays the time of
  the first frame by a second and loses that of the second (`IrigBFault.FaultAtBoundary`).
- With start after end, the event count is 2^32 less the events strictly between the two times, unless there are
  none; with several events at the start time, the search sees one of them, or two if they are the newest
  (`TransientLog.CountsExactly`, `TransientLog.HeadIsOldest`; inputs are `TransientLog.ExchangedEnds` and
  `TransientLog.EqualTimes`).
- A repeated request gets the package that went out last if and only if an event is still being sent
  (`TransientTransfer.RepeatResends`). Between two events it gets the first package of the next event, whose count is
  then one too many: the last package of the event before is not sent again, and one is read past the end of the next
  event's file (`TransientTransfer.BoundaryRepeat`, `TransientCases.RepeatBetweenEvents`).
- When overlap skips use up the whole window and the event behind it has no file, the transfer counter is
  decremented below zero and wraps (`TransientCases.WindowOverrun`). Over a run, that alone moves the anchor of the
  transfer, by 2^32 slots each time (`TransientTransfer.RunMovesAnchor`), which shows exactly when the ring size does
  not divide the sum (`TransientTransfer.RunKeepsAnchor`).
- After a ten-minute restart that began in the current block, the cursor falls short of the window's end by the
  offset of the restart point (`TenCycle.Resampler.GetRsmplSrc`; by 80 samples in `TenCycleCases.FallsShort`); after a
  block switch the sample count for rapid-change events lacks the samples of the first block.
- For cycles of up to m samples the RMS sum is exact for all signals if and only if the ring has room for m + 63
  squares (`SlidingRuns.RingThatSuffices`). The ring of 255 is too small for cycles of 256 samples: nothing is ever
  trimmed (`SlidingRms.SourceRingIsTooSmall`). The recalculation sums the oldest squares instead of the newest
  (`SlidingRms.OldestSuffice`), which is the same right after a trim.
- Resampling reads inside its source if and only if there are more than 2048 samples (`Interpolate.InRange`), and
  its scaled positions fit in 32 bits if and only if there are at most 10490 (`Interpolate.PositionsFit`).

## Assumptions

- Characters are unsigned and `unsigned long` has four bytes, as on the ARM target, so a frame's head has 20 bytes.
- Floats are exact: squares and interpolated samples are integers, means are rationals.
- INTERH_MAX_RESO is 16, which the stride of 30 in the limit check implies; the file that defines it is not part of
  this model.
- Where GetRsmplSrc does not set fields of the rapid-change source, CalcRceRms is given the sectors and cycle lengths
  of one window as the comments on the structure describe them.
- Files of transient events are reduced to whether they exist and how many packages they hold, and their heads
  (TRST_F_HEAD, which is not part of this model) are shorter than a package; zlib's `compress` is a
  function whose result keeps to the bound that zlib documents; whether an order of interharmonics is over the limit
  is a function of the channel, the order and the amplitudes in its window.

## Model

| member | source | states |
|---|---|---|
| `Md5Rounds.SelectByXor` | gui/src/security/md5.cpp:40 | digit by digit, d ^ (b & (c ^ d)) takes c where b is one and d where it is zero |
| `Md5Rounds.OptimisedSelection` | gui/src/security/md5.cpp:36-41 | the optimised FF and FG equal F and G of RFC 1321, section 3.4, on all words |
| `Md5Rounds.RolIsRotateLeft` | gui/src/security/md5.h:28 | the two shifted halves that rol ORs do not overlap: it is the circular shift of the standard |
| `Md5Rounds.Op` | gui/src/security/md5.cpp:107-114 | one macro step computes the value that the standard assigns to register a in step i |
| `Md5Rounds.OpFF` | gui/src/security/md5.cpp:73-80 | an OP of round 1 with its optimised selection is step i of the table |
| `Md5Rounds.OpFG` | gui/src/security/md5.cpp:117-132 | an OP of round 2 is step i of the table |
| `Md5Rounds.OpFH` | gui/src/security/md5.cpp:135-150 | an OP of round 3 is step i of the table |
| `Md5Rounds.OpFI` | gui/src/security/md5.cpp:153-168 | an OP of round 4 is step i of the table |
| `Md5Rounds.FourSteps` | gui/src/security/md5.cpp:89-92 | passing registers in four rotated orders equals four steps that rotate the registers |
| `Md5Rounds.Round1` | gui/src/security/md5.cpp:88-104 | 16 unrolled steps in place equal the first 16 table-driven steps |
| `Md5Rounds.Round2` | gui/src/security/md5.cpp:116-132 | from there, 16 more steps with their word order, distances and constants equal steps 17 to 32 |
| `Md5Rounds.Round3` | gui/src/security/md5.cpp:134-150 | steps 33 to 48 |
| `Md5Rounds.Round4` | gui/src/security/md5.cpp:152-168 | steps 49 to 64 |
| `Md5.Context.constructor` | gui/src/security/md5.cpp:25-34 | a fresh context stands for the empty message |
| `Md5.Context.Transform` | gui/src/security/md5.cpp:48-175 | adds the compression of one block to the registers |
| `Md5.LittleWordBytes` | gui/src/security/md5.cpp:66-68 | a word made of four bytes has them as its bytes, low-order byte first |
| `Md5.BlockWordBytes` | gui/src/security/md5.cpp:57-69 | the sixteen words that a block is read as hold its bytes in order |
| `Md5.AddWraps` | gui/src/security/md5.cpp:171-174 | sums of registers drop the carry out of 32 digits |
| `Md5.NotFlips` | gui/src/security/md5.cpp:43 | the complement flips each of 32 digits |
| `Bits.DigitsCombine` | gui/src/security/md5.cpp:40-43 | digit by digit, the three operators are conjunction, disjunction and inequality |
| `Md5.Context.Flush` | gui/src/security/md5.cpp:183-187 | a full buffer is absorbed, and the context still stands for the same bytes |
| `Md5.Context.Fill` | gui/src/security/md5.cpp:191-192 | bytes go into the buffer until it is full or the input ends |
| `Md5.Context.WholeBlocks` | gui/src/security/md5.cpp:198-204 | whole blocks are absorbed straight from the input |
| `Md5.Context.Write` | gui/src/security/md5.cpp:181-207 | after any write the context depends only on all bytes written so far: count < 64, the buffer is the tail, the registers are the fold over whole blocks |
| `Md5.Context.BitCount` | gui/src/security/md5.cpp:221-233 | shifts and carries over two 32-bit halves give eight times the length modulo 2^38 |
| `Md5.Times64` | gui/src/security/md5.cpp:221-228 | a block count split into two words leaves room for the pending bytes, so adding them carries at most once |
| `Md5.Times8` | gui/src/security/md5.cpp:230-233 | the shift by three digits over two words multiplies the pair by eight |
| `Md5.Context.PadTo` | gui/src/security/md5.cpp:235-242 | 0x80 and zeros are appended up to a limit |
| `Md5.Context.PadUp` | gui/src/security/md5.cpp:235-245 | both padding branches leave the message, 0x80 and zeros up to 56 modulo 64 |
| `Md5.Context.LastBlock` | gui/src/security/md5.cpp:246-255 | the 64-bit count goes in low byte first and the last block is absorbed |
| `Md5.Context.Final` | gui/src/security/md5.cpp:209-270 | the first 16 bytes of the buffer are the registers after the padded message, count taken modulo 2^38 bytes; what the counters are left at, and exactly when the handle is as after md5_init, which the comment promises |
| `Md5.BlocksPadded` | gui/src/security/md5.cpp:235-245 | the extra block is absorbed exactly when the last block has less than nine bytes left |
| `Md5.CountersAreZero` | gui/src/security/md5.cpp:183-187 | both counters are zero at the end exactly for a length whose residue modulo 2^38 is one of the last eight |
| `Md5.BytesSplit` | gui/src/security/md5.cpp:247-254 | the bytes of a number are those of its low half followed by those of its high half |
| `Md5Sum.CountIsStandard` | gui/src/security/md5.cpp:221-233 | the padding is that of RFC 1321 if and only if the length modulo 2^61 is below 2^38 |
| `Md5Sum.LittleBytesModulo` | gui/src/security/md5.cpp:246-254 | k low-order bytes agree exactly when the numbers agree modulo 256^k |
| `Md5Sum.SumFile` | gui/src/security/md5.cpp:280-310 | for every split of a file into reads, the printed sum is the RFC 1321 digest of the whole, under the condition above |
| `Md5Sum.SumString` | gui/src/security/md5.cpp:302-310 | the same for a string of any length, in one write |
| `Md5Sum.HexReads` | gui/src/security/md5.cpp:307-308 | two characters of the printed sum are the lower-case hexadecimal digits of a byte, the high one first |
| `Md5Sum.HexIsInjective` | gui/src/security/md5.cpp:307-308 | equal printed sums mean equal digests |
| `PhyPrtclPqB.Find` | common/commu/protocol/phy_prtcl_pqb.cpp:48-54 | the search stops at a preamble, or where fewer than four bytes remain |
| `PhyPrtclPqB.FindsFirst` | common/commu/protocol/phy_prtcl_pqb.cpp:48-54 | it passes over no preamble |
| `PhyPrtclPqB.Round` | common/commu/protocol/phy_prtcl_pqb.cpp:46-108 | one turn of the scan; unless it ends the scan it moves strictly forward within the received bytes |
| `PhyPrtclPqB.RoundIsSound` | common/commu/protocol/phy_prtcl_pqb.cpp:46-108 | a round reports only a frame that is accepted, inside the received bytes and apart from those before, and what it keeps is bounded |
| `PhyPrtclPqB.ScanIsSound` | common/commu/protocol/phy_prtcl_pqb.cpp:45-109 | the same for the whole scan, which terminates |
| `PhyPrtclPqB.UnpackIsSound` | common/commu/protocol/phy_prtcl_pqb.cpp:34-111 | over every run: at most 2071 bytes between calls, 4118 in a buffer of 8192 during one, at most nine frames, each inside the received bytes when accepted |
| `PqbReceiver.Receiver.FindHead` | common/commu/protocol/phy_prtcl_pqb.cpp:48-54 | the inner loop computes the search |
| `PqbReceiver.Receiver.Append` | common/commu/protocol/phy_prtcl_pqb.cpp:41-44 | what is read goes behind what was kept |
| `PqbReceiver.Receiver.MoveTail` | common/commu/protocol/phy_prtcl_pqb.cpp:93-99 | the copy within the buffer moves an incomplete frame to the front |
| `PqbReceiver.Receiver.MoveThree` | common/commu/protocol/phy_prtcl_pqb.cpp:100-107 | three bytes move to the front, received or not |
| `PqbReceiver.Receiver.Report` | common/commu/protocol/phy_prtcl_pqb.cpp:78-81 | the offset is recorded; the ninth report clears the count |
| `PqbReceiver.Receiver.OneRound` | common/commu/protocol/phy_prtcl_pqb.cpp:46-108 | the branches on the array do what the specified round does |
| `PqbReceiver.Receiver.UnpackData` | common/commu/protocol/phy_prtcl_pqb.cpp:34-111 | buffer, count, offsets and the log of payloads at acceptance are those of the specification, for all buffers and reads |
| `PqbStream.FindsHead` | common/commu/protocol/phy_prtcl_pqb.cpp:48-54 | behind at most three bytes of junk the search finds a preamble and nothing else |
| `PqbStream.RoundOnFrame` | common/commu/protocol/phy_prtcl_pqb.cpp:56-87 | a complete frame is reported exactly when address and checksum match, and the scan goes on at its last byte |
| `PqbStream.RoundOnPart` | common/commu/protocol/phy_prtcl_pqb.cpp:87-99 | an incomplete frame is kept, whatever part of it is there |
| `PqbStream.RoundAtEnd` | common/commu/protocol/phy_prtcl_pqb.cpp:100-107 | less than a preamble: the last three bytes are kept |
| `PqbStream.ScanStream` | common/commu/protocol/phy_prtcl_pqb.cpp:45-109 | over any number of frames and the beginning of another one, a call reports the matching frames and keeps the beginning |
| `PqbStream.UnpackStream` | common/commu/protocol/phy_prtcl_pqb.cpp:34-111 | the same for a call on a receiver that holds the beginning of a frame |
| `PqbStream.WholeSplits` | common/commu/protocol/phy_prtcl_pqb.cpp:93-99 | every prefix of a line is some complete frames and a proper part of the next |
| `PqbStream.Stream` | common/commu/protocol/phy_prtcl_pqb.cpp:34-111 | however back-to-back frames are split into fair reads, exactly the complete frames with matching address and checksum are accepted, each once and in order |
| `PqbLoss.FromTheStart` | common/commu/protocol/phy_prtcl_pqb.cpp:14-17 | a fresh receiver delivers a whole line if the first read has at least two bytes, so all such splits agree |
| `PqbReceiver.ReceiveAll` | common/commu/protocol/phy_prtcl_pqb.cpp:34-111 | a run of calls with one buffer is the specified run, payloads logged in order |
| `PqbReceiver.ReceiveLine` | common/commu/protocol/phy_prtcl_pqb.cpp:14-111 | a fresh receiver with any buffer logs exactly the matching frames of a line read in fair pieces, those with the right bytes |
| `PqbLoss.ScanOver` | common/commu/protocol/phy_prtcl_pqb.cpp:100-107 | a call that ends one byte behind a frame keeps that byte in front of one that was never received |
| `PqbLoss.UnpackOver` | common/commu/protocol/phy_prtcl_pqb.cpp:100-107 | the receiver is still in step exactly when the byte behind the received ones is 0x5c |
| `PqbLoss.LostFrame` | common/commu/protocol/phy_prtcl_pqb.cpp:48-54 | otherwise a following frame without a preamble inside is lost |
| `PqbLoss.NotInStep` | common/commu/protocol/phy_prtcl_pqb.cpp:34-111 | whatever is inside it, the following frame is not accepted then |
| `PqbLoss.OneByteOver` | common/commu/protocol/phy_prtcl_pqb.cpp:34-111 | the next frame is accepted if and only if that byte is 0x5c, whatever is inside the frame |
| `PqbCases.CutBehindOneByte` | common/commu/protocol/phy_prtcl_pqb.cpp:100-107 | a line of two frames cut behind the first byte of the second: the second is lost |
| `PqbCases.TenAtOnce` | common/commu/protocol/phy_prtcl_pqb.cpp:78-81 | ten frames in one read: nine are reported and the tenth is lost |
| `PqbLoss.NinthFrame` | common/commu/protocol/phy_prtcl_pqb.cpp:78-81 | nine frames are reported and everything after the ninth is dropped |
| `PqbLoss.FirstByte` | common/commu/protocol/phy_prtcl_pqb.cpp:14-17 | a first read of one byte is kept in front of a byte never received |
| `PqbBytes.AdlerIsReducedOnce` | common/commu/protocol/phy_prtcl_pqb.cpp:70-76 | reducing both sums of the checksum after every byte is reducing them modulo 65521 at the end, as RFC 1950 defines it |
| `PqbBytes.KnownSum` | common/commu/protocol/phy_prtcl_pqb.cpp:70-76 | the checksum of the letters abc |
| `PqbBytes.AcceptsByBytes` | common/commu/protocol/phy_prtcl_pqb.cpp:69-77 | a frame is accepted if and only if bytes 4 and 5 are the address, low-order byte first, or zero, and bytes 0 to 3 are the checksum of the rest, or of the rest of the head if byte 11 is set |
| `PqbBytes.WellFormedByBytes` | common/commu/protocol/phy_prtcl_pqb.h:9-17 | bytes 9 and 10 state the length of the body |
| `PqbBytes.AcceptedByBytes` | common/commu/protocol/phy_prtcl_pqb.cpp:69-77 | of any line, the frames accepted are those with such bytes |
| `PqbBytes.OneFrameByBytes` | common/commu/protocol/phy_prtcl_pqb.cpp:34-111 | a fresh receiver that reads one frame at once reports it exactly if its bytes are so |
| `PqbBytes.RoundOnLong` | common/commu/protocol/phy_prtcl_pqb.cpp:62-66 | a stated length above 2048 ends the call and clears the count |
| `PqbBytes.TooLong` | common/commu/protocol/phy_prtcl_pqb.cpp:62-66 | the frames before such a head are reported, what follows it in the read is lost, and the next line is delivered whole if its first read has at least three bytes |
| `PqbReceiver.ReceiveFrame` | common/commu/protocol/phy_prtcl_pqb.cpp:34-111 | the receiver at work on one frame in one read: logged exactly if the bytes of its head and its checksum are right |
| `PqbPack.RoundTrip` | common/commu/protocol/phy_prtcl_pqb.cpp:118-159 | what is sent behind the preamble is a frame that the addressed receiver, or any if the address is zero, accepts, with the head fields and the body in it; both sides take the checksum over the same bytes |
| `PqbPack.SentFirst` | common/commu/protocol/phy_prtcl_pqb.cpp:126-148 | the six bytes that go out first, and a checksum that is right byte by byte |
| `PqbPack.RoomFor` | common/commu/protocol/phy_prtcl_pqb.cpp:123-124 | messages of up to 15189 bytes are sent |
| `PqbPack.SentIsAccepted` | common/commu/protocol/phy_prtcl_pqb.cpp:69-85 | of a list of messages the receiver accepts exactly the payloads of those for it |
| `PqbPack.EndToEnd` | common/commu/protocol/phy_prtcl_pqb.cpp:34-159 | sender to receiver over any fair reads: the payloads of the messages for the device, in order |
| `PqbPack.Sender.PackData` | common/commu/protocol/phy_prtcl_pqb.cpp:118-159 | too long a message returns 1 and writes nothing; otherwise the buffer holds preamble, checksum, head and body, compressed or not |
| `IrigB.RunConcat` | common/commu/protocol/app_prtcl_gps.cpp:36-37 | decoding does not depend on how the symbols are cut into buffers |
| `IrigB.AlignedStep` | common/commu/protocol/app_prtcl_gps.cpp:58-119 | in step, one more symbol keeps the accumulators equal to what the frame says so far |
| `IrigB.AlignedRun` | common/commu/protocol/app_prtcl_gps.cpp:37-119 | inside a frame the decoder stays in step and hands nothing over |
| `IrigB.UnpacksTo` | common/commu/protocol/app_prtcl_gps.cpp:132-136 | the decimal digits of the accumulators are the time that the frame encodes by the weights of the standard |
| `IrigB.Boundary` | common/commu/protocol/app_prtcl_gps.cpp:38-57 | two markers hand the accumulators over and clear them |
| `IrigB.FrameDecoded` | common/commu/protocol/app_prtcl_gps.cpp:37-119 | a frame and the next reference marker hand over exactly its time |
| `IrigB.RoundTrip` | common/commu/protocol/app_prtcl_gps.cpp:33-138 | for any sequence of valid frames each reference marker after the first hands over exactly the time of the frame it ends |
| `IrigB.EncodesTime` | common/commu/protocol/app_prtcl_gps.cpp:132-136 | the frame built for any legal time decodes to that time |
| `IrigBSync.StepSettles` | common/commu/protocol/app_prtcl_gps.cpp:37-119 | every symbol keeps a normal state normal, or brings any other state nearer to one |
| `IrigBSync.Settles` | common/commu/protocol/app_prtcl_gps.cpp:37-119 | 512 symbols of any kind bring the decoder into a normal state from any contents of its fields |
| `IrigBSync.SearchFinds` | common/commu/protocol/app_prtcl_gps.cpp:38-57 | a search ends exactly at the end of the frame it is in, and hands over what the accumulators hold |
| `IrigBSync.Deaf` | common/commu/protocol/app_prtcl_gps.cpp:58-119 | out of step, the decoder ignores markers until it has counted to 98 |
| `IrigBSync.SecondBoundary` | common/commu/protocol/app_prtcl_gps.cpp:37-119 | from any normal state a valid stream joined at any symbol is in step by its second boundary |
| `IrigBSync.ExactInTheEnd` | common/commu/protocol/app_prtcl_gps.cpp:37-119 | after that all times handed over are exact, and it stays in step |
| `IrigBFault.FaultInFrame` | common/commu/protocol/app_prtcl_gps.cpp:58-62 | a fault symbol within a frame: at its end, its time with all bits from there on taken as zero is handed over, and the decoder is in step |
| `IrigBFault.FaultAtBoundary` | common/commu/protocol/app_prtcl_gps.cpp:37-62 | a fault in either marker between two frames: the time of the first comes a second late, that of the second never |
| `IrigBFault.SampleIsDecoded` | common/commu/protocol/app_prtcl_gps.cpp:36-119 | the hundred symbols of 12:34:56 on day 100, whole and with symbol 1 or 5 replaced by 0xcc |
| `AppPrtclGps.CountsRegular` | common/commu/protocol/app_prtcl_gps.cpp:138-144 | the count is the length of the regular tail of the times, up to four |
| `AppPrtclGps.GateOpens` | common/commu/protocol/app_prtcl_gps.cpp:138-144 | a time passes exactly when it is at least the fifth and the last four steps were one second each |
| `AppPrtclGps.Protocol.SetIRIGBTime` | common/commu/protocol/app_prtcl_gps.cpp:130-152 | the digits are unpacked and the clock is set one second on exactly when the gate opens |
| `AppPrtclGps.Protocol.Symbol` | common/commu/protocol/app_prtcl_gps.cpp:37-119 | one turn of the loop is one step of the decoder, and hands over a time only if the signal carries IRIG-B |
| `AppPrtclGps.Protocol.CmdReceive` | common/commu/protocol/app_prtcl_gps.cpp:33-122 | a buffer of symbols runs the decoder over them |
| `AppPrtclGps.Receive` | common/commu/protocol/app_prtcl_gps.cpp:33-122 | reads cut anywhere hand over what the whole stream does |
| `LoopBuffer.RoundCapacity` | common/misc/loop_buf_base.cpp:5-8 | the smallest 2^k - 1 that is at least the size, for sizes up to 0x1ffff, 0x1ffff beyond and 0 for none |
| `LoopBuffer.Ring.Advance` | common/misc/loop_buffer.h:45 | masking the successor of a slot is wrapping around |
| `LoopBuffer.Ring.DataNum` | common/misc/loop_buf_base.h:13 | the length of the queue |
| `LoopBuffer.Ring.Clear` | common/misc/loop_buf_base.h:14 | an empty queue |
| `LoopBuffer.Ring.Push` | common/misc/loop_buffer.h:40-53 | appends; a full ring drops exactly its oldest element into the trash slot and returns 1; what is still to be read grows by the element, or is empty when a whole ring was still to be read |
| `LoopBuffer.Ring.Pop` | common/misc/loop_buffer.h:57-64 | removes the oldest element, or returns -1; what is still to be read stays |
| `LoopBuffer.Ring.Seek` | common/misc/loop_buf_base.cpp:19-25 | reading starts at the offset, clipped at the last but one slot, and lists the queue from there in order |
| `LoopBuffer.Ring.Read` | common/misc/loop_buffer.h:68-75 | delivers the next element to read, or returns -1 |
| `LoopBuffer.SpanMoves` | common/misc/loop_buffer.h:45-50 | writing into the free slot moves a full ring on by one element |
| `LoopBuffer.NothingLostOrReordered` | common/misc/loop_buffer.h:40-64 | over any run of pushes and pops, what left followed by what is stored is what was pushed, in order |
| `SlidingRms.Phase.PushSquare` | main/src/IED/sv_process.cpp:416-417 | sum and ring stay tied, with what a full ring dropped without subtracting recorded |
| `SlidingRms.Phase.Trim` | main/src/IED/sv_process.cpp:420-423 | the newest squares of at most one cycle remain and are what the sum counts |
| `SlidingRms.Phase.TakeSample` | main/src/IED/sv_process.cpp:414-427 | one sample takes ring, sum, position and emitted means to the next reference window |
| `SlidingRms.Phase.RmsLoop` | main/src/IED/sv_process.cpp:412-429 | all means emitted for a window are those of the reference, and they fit the array |
| `SlidingRms.Phase.CalcRceRms` | main/src/IED/sv_process.cpp:383-434 | the same with the closing recalculation: ring, means and what the sum is off by afterwards |
| `SlidingRms.Phase.RecalcSum` | main/src/IED/sv_process.cpp:443-454 | the new sum is that of the oldest squares, at most one cycle of them |
| `SlidingRms.HoldsTheLatest` | main/src/IED/sv_process.cpp:416-423 | whatever is dropped or trimmed, the ring holds the latest squares in order |
| `SlidingRms.NoDrift` | main/src/IED/sv_process.cpp:416-423 | with room for a cycle and 63 samples the sum stays exact through all pushes and trims |
| `SlidingRms.ExactMean` | main/src/IED/sv_process.cpp:416-426 | then every mean is the sum of the latest squares of at most one cycle over its length |
| `SlidingRuns.RingThatSuffices` | main/src/IED/sv_process.cpp:416-423 | for cycles of up to m samples the sum is exact for all signals, whatever a call before has left, if and only if the ring has room for m + 63 |
| `SlidingRuns.WholeCycles` | main/src/IED/sv_process.cpp:419-423 | with cycle lengths that differ by at most 32, every trim leaves exactly one cycle, or all squares there were |
| `SlidingRuns.MeanSinceStart` | main/src/IED/sv_process.cpp:416-426 | then a mean is the sum of exactly the latest cycle of all samples since start-up, once there were enough |
| `SlidingRuns.OneCall` | main/src/IED/sv_process.cpp:383-434 | a call of at least 32 samples keeps the sum exact, with the recalculation after a multiple of 32 samples too, and all its means are those of the latest squares |
| `SlidingRuns.AllCalls` | main/src/IED/sv_process.cpp:383-434 | over any run of such calls from start-up, every mean of every call is that of the latest squares |
| `SlidingRms.NeverTrims` | main/src/IED/sv_process.cpp:419-423 | cycles as long as the ring are never trimmed: the sum keeps every square since start-up |
| `SlidingRms.SourceRingIsTooSmall` | main/src/IED/sv_process.cpp:414-426 | a ring of 255 with cycles of 256 samples emits the total since start-up |
| `SlidingRms.OldestSuffice` | main/src/IED/sv_process.cpp:443-454 | the recalculated sum is right if and only if all squares beyond the oldest cycle are zero |
| `Interpolate.InRange` | main/src/IED/sv_process.cpp:153-157 | every access lies inside the merged samples if and only if there are more than 2048 |
| `Interpolate.Truncates` | main/src/IED/sv_process.cpp:156 | the division drops the fraction, on both sides of zero alike |
| `Interpolate.PercentRounds` | main/src/IED/sv_process.cpp:155 | dx is the position between two samples rounded to the nearest percent, from 0 to 100 |
| `Interpolate.BetweenNeighbours` | main/src/IED/sv_process.cpp:153-157 | every point lies between its two neighbours |
| `Interpolate.CloseToExact` | main/src/IED/sv_process.cpp:153-157 | every point is within abs d/200 + 3/2 of exact linear interpolation, d the difference of its neighbours |
| `Interpolate.Monotone` | main/src/IED/sv_process.cpp:153-157 | a monotone source gives monotone points |
| `Interpolate.PositionsFit` | main/src/IED/sv_process.cpp:154-155 | the scaled positions fit in 32 bits if and only if there are at most 10490 samples |
| `Interpolate.RisesFit` | main/src/IED/sv_process.cpp:156 | the products of 24-bit differences and percentages always fit |
| `Interpolate.FillPhase` | main/src/IED/sv_process.cpp:147-159 | the loop fills one phase and touches no other |
| `Interpolate.Resample` | main/src/IED/sv_process.cpp:124-162 | invalid data gives zeros, no data changes nothing, otherwise all three phases are interpolated |
| `TenCycle.Resampler.IniSrc` | main/src/IED/sv_process.cpp:295-325 | a window starts at the cursor, or with the sectors carried over a ten-minute tick |
| `TenCycle.Resampler.SwitchBlock` | main/src/IED/sv_process.cpp:240-271 | at a block switch the window covers the rest of one block and the start of the next, and the restart point is the end of cycle i if that is less than 128 samples behind the switch, and otherwise of the one before |
| `TenCycle.Resampler.TakeCycle` | main/src/IED/sv_process.cpp:229-272 | each cycle extends the covered samples by its length and flags lengths out of range |
| `TenCycle.Resampler.TakeCycles` | main/src/IED/sv_process.cpp:229-272 | the loop consumes exactly the cycles of the window, and finds the restart point: the end of the cycle that crosses the block if it is less than 128 samples behind, and otherwise its beginning |
| `TenCycle.RestartSectors` | main/src/IED/sv_process.cpp:245-256 | the sectors kept at a switch are exactly the samples behind the restart point |
| `TenCycle.Resampler.CloseRestarted` | main/src/IED/sv_process.cpp:273-283 | after a tick: carried cycles followed by fresh ones, ten in all, covered exactly |
| `TenCycle.Resampler.ClosePlain` | main/src/IED/sv_process.cpp:273-283 | plain windows cover ten cycles from the cursor to the next cursor, so they tile; carried cycles end at the cursor |
| `TenCycle.Resampler.GetRsmplSrc` | main/src/IED/sv_process.cpp:212-284 | every window holds the samples of exactly ten cycles; when it enters the next block and where it is to restart; by how much the cursor and the rapid-change counts differ from that |
| `TenCycleCases.FallsShort` | main/src/IED/sv_process.cpp:212-325 | blocks of 5120 samples and cycles of 200: after a restart at sample 5200 the window ends at 7200 and the next begins at 7120 |
| `TransientLog.ComparesMicros` | common/commu/protocol/app_prtcl_pqb.cpp:59-61 | comparing seconds first and microseconds second is comparing whole times |
| `TransientLog.SlotsBack` | common/commu/protocol/app_prtcl_pqb.cpp:57 | event num lies num slots before the next one, around the ring |
| `TransientLog.Newest` | common/commu/protocol/app_prtcl_pqb.cpp:106-123 | the events later than a time, and those not before it, are the newest ones |
| `TransientLog.Narrow` | common/commu/protocol/app_prtcl_pqb.cpp:54-71 | twelve halvings leave at most two candidates of up to 4097 events, with the last event later than the time or the first of all among them |
| `TransientLog.LocateTranstPos` | common/commu/protocol/app_prtcl_pqb.cpp:47-99 | despite the cap of 12 halvings: the newest event not after a time, or the head for a start time |
| `TransientLog.HeadIsOldest` | common/commu/protocol/app_prtcl_pqb.cpp:85-98 | the head is the oldest event not before the start if and only if at most one event has that time, or just the two newest have |
| `TransientLog.Tallies` | common/commu/protocol/app_prtcl_pqb.cpp:114-123 | an interval holds the difference of two ranks, and with the ends exchanged the gap does |
| `TransientLog.StatTranst` | common/commu/protocol/app_prtcl_pqb.cpp:106-123 | the number of events in an interval less those missed at its start, and the slot of the head, for any fill and wrap of the ring |
| `TransientLog.Difference` | common/commu/protocol/app_prtcl_pqb.cpp:114-123 | the 32-bit difference of the two ends found is that number, or minus the events between exchanged ends |
| `TransientLog.CountsExactly` | common/commu/protocol/app_prtcl_pqb.cpp:106-123 | the result is the number of events of the interval if and only if the ends are in order or nothing lies strictly between them, and no event at the start time is missed |
| `TransientLog.StatInMicros` | common/commu/protocol/app_prtcl_pqb.cpp:106-123 | the number returned is that of the events whose times in microseconds lie in the interval, less those missed at its start, and none is missed if no two have the same time |
| `TransientLog.MicrosecondsBelow` | common/commu/protocol/app_prtcl_pqb.cpp:59-61 | two events, the later one with fewer microseconds: both are counted |
| `TransientLog.ExchangedEnds` | common/commu/protocol/app_prtcl_pqb.cpp:114-120 | three events, start at the newest and end at the oldest: 2^32 - 1 is returned for none |
| `TransientLog.EqualTimes` | common/commu/protocol/app_prtcl_pqb.cpp:85-98 | three events at the start time and one after it: two are counted |
| `TransientPackages.OverlapsTwo` | common/commu/protocol/app_prtcl_pqb.cpp:150 | an event overlaps if it lies in the slot that new events go to or in the one after it |
| `TransientPackages.SkipKeepsAnchor` | common/commu/protocol/app_prtcl_pqb.cpp:150-154 | skipping overlapping events keeps (position + number) modulo the ring size |
| `TransientPackages.SkipDrops` | common/commu/protocol/app_prtcl_pqb.cpp:150-154 | what was to be sent is the packages of the skipped events followed by what is to be sent then |
| `TransientPackages.FindKeeps` | common/commu/protocol/app_prtcl_pqb.cpp:155-177 | with an event left, the search drops only events without a file and keeps the anchor |
| `TransientPackages.FindWraps` | common/commu/protocol/app_prtcl_pqb.cpp:168-171 | with none left it stops at once if the event has a file, and otherwise goes on with a counter that wraps, moving the anchor by 2^32 |
| `TransientPackages.MovesAnchor` | common/commu/protocol/app_prtcl_pqb.cpp:169-170 | k slots move an anchor if and only if the ring size does not divide k |
| `TransientTransfer.OpenedKeeps` | common/commu/protocol/app_prtcl_pqb.cpp:147-201 | opening the next event keeps the anchor and the remaining packages, or wraps the counter when the window is overrun |
| `TransientTransfer.RequestKeepsAnchor` | common/commu/protocol/app_prtcl_pqb.cpp:127-271 | a request keeps the anchor unless the window is overrun, and moves it by 2^32 slots then |
| `TransientTransfer.NewRequest` | common/commu/protocol/app_prtcl_pqb.cpp:147-269 | what a new request skips, what it sends and what is left then are, in order, what was left |
| `TransientTransfer.Resend` | common/commu/protocol/app_prtcl_pqb.cpp:203-209 | a repeat while an event is being sent sends the package before the next one, and uses nothing up |
| `TransientTransfer.BoundaryRepeat` | common/commu/protocol/app_prtcl_pqb.cpp:203-209 | a repeat between two events sends the first package of the next one, and adds a package past the end of its file |
| `TransientTransfer.EmptyEvent` | common/commu/protocol/app_prtcl_pqb.cpp:189-192 | an event whose file holds no package takes a request of its own, for which nothing is sent |
| `TransientTransfer.RepeatResends` | common/commu/protocol/app_prtcl_pqb.cpp:203-269 | a repeat gets the same package if and only if the event goes on after the request that it repeats |
| `TransientTransfer.RunMovesAnchor` | common/commu/protocol/app_prtcl_pqb.cpp:127-271 | over any run, with any files and any movement of new events, the anchor is where it was, plus 2^32 slots for each overrun |
| `TransientTransfer.RunKeepsAnchor` | common/commu/protocol/app_prtcl_pqb.cpp:127-271 | a run keeps the anchor if and only if the ring size divides 2^32 times the number of overruns |
| `TransientTransfer.RunPasses` | common/commu/protocol/app_prtcl_pqb.cpp:127-271 | wherever new events go meanwhile, what a run skips and sends, each resent package once, followed by what is left, is what was left |
| `TransientCases.RepeatBetweenEvents` | common/commu/protocol/app_prtcl_pqb.cpp:203-269 | two events of one package: the repeat between them loses the first package and adds one that does not exist |
| `TransientCases.WindowOverrun` | common/commu/protocol/app_prtcl_pqb.cpp:150-177 | one event left in slot 8, new events at slot 7, no file at slot 9: the counter wraps and the anchor moves |
| `TransientCursor.Cursor.Begin` | common/commu/protocol/app_prtcl_pqb.cpp:137-145 | the first request counts the interval and places the cursor on its head |
| `TransientCursor.Cursor.SkipOverlaps` | common/commu/protocol/app_prtcl_pqb.cpp:150-154 | the loop passes exactly the leading events that overlap with new ones |
| `TransientCursor.Cursor.FindFile` | common/commu/protocol/app_prtcl_pqb.cpp:155-177 | the loop, which decrements before it tests for zero, ends and is the specified search |
| `TransientCursor.Cursor.OpenNext` | common/commu/protocol/app_prtcl_pqb.cpp:147-201 | the next event is opened as specified |
| `TransientCursor.Cursor.SendPackage` | common/commu/protocol/app_prtcl_pqb.cpp:216-269 | which package goes out, and when the event is left |
| `TransientCursor.Cursor.Serve` | common/commu/protocol/app_prtcl_pqb.cpp:127-271 | the fields after a request, and the package sent, are those of the specified state; the anchor stays unless the window is overrun |
| `TransientCursor.Cursor.ServeAll` | common/commu/protocol/app_prtcl_pqb.cpp:127-271 | a run of requests sends what the specified run sends |
| `InterLimit.CutTable` | main/src/pqm_func/harmfunc.cpp:1170-1173 | the full table is cut row by row |
| `InterLimit.CutAt` | main/src/pqm_func/harmfunc.cpp:1170-1173 | a word of the cut table is the word of the same row and sub-bin in the full one |
| `InterLimit.WindowInPhase` | main/src/pqm_func/harmfunc.cpp:1177-1204 | every window stays in its phase, and the widened last one of order 50 ends exactly at its end if and only if the resolution is even |
| `InterLimit.WindowCells` | main/src/pqm_func/harmfunc.cpp:1176-1198 | the window of order k is exactly the sub-bins from k - 1/2 to k + 1/2; it begins at 0 for the first order and goes on to k + 1 for the highest |
| `InterLimit.OneOrder` | main/src/pqm_func/harmfunc.cpp:1183-1201 | an order over the limit adds exactly its window, widened for the first and the highest order |
| `InterLimit.OnePhase` | main/src/pqm_func/harmfunc.cpp:1182-1204 | the same for the fifty orders of a phase |
| `InterLimit.InterLimitHdl` | main/src/pqm_func/harmfunc.cpp:1159-1207 | each word is that of the cut table where the window of an order over the limit covers it, and as before, so zero, elsewhere |
| `InterRecord.GroupsAreNonzero` | main/src/pqm_func/harmfunc.cpp:1116-1147 | the groups hold the nonzero amplitudes with channel, phase, order and sub-bin, each once and in order |
| `InterBytes.MaskBound` | main/src/pqm_func/harmfunc.cpp:1129 | the mask of the sub-bins stays below the bit of the channel |
| `InterBytes.MaskBits` | main/src/pqm_func/harmfunc.cpp:1129 | a bit of the mask is set exactly if that sub-bin is in the group |
| `InterBytes.GroupHead` | main/src/pqm_func/harmfunc.cpp:1119-1141 | the bit fields of the three bytes in front of a group |
| `InterBytes.Fields` | main/src/pqm_func/harmfunc.cpp:1119-1141 | mask and channel bit do not collide |
| `InterBytes.UnpackPayload` | main/src/pqm_func/harmfunc.cpp:1123-1136 | mask and values determine the sub-bins of a group |
| `InterBytes.ParseEmitted` | main/src/pqm_func/harmfunc.cpp:1137-1142 | a reader recovers all groups from their bytes, whatever follows |
| `InterStruct.HarmFunc.PackItem` | main/src/pqm_func/harmfunc.cpp:1124-1134 | an item is appended, after a gap of three bytes if it is the first |
| `InterStruct.HarmFunc.PatchHead` | main/src/pqm_func/harmfunc.cpp:1137-1142 | the gap in front of the values gets phase, order, channel and mask |
| `InterStruct.HarmFunc.PackGroup` | main/src/pqm_func/harmfunc.cpp:1119-1144 | a group is emitted if it has items; nothing behind it or before it changes |
| `InterStruct.HarmFunc.PackAll` | main/src/pqm_func/harmfunc.cpp:1116-1147 | after all groups the buffer holds them in order, within 19287 bytes |
| `InterStruct.HarmFunc.PutHead` | main/src/pqm_func/harmfunc.cpp:1148-1153 | length, resolution and number of groups agree with the content |
| `InterStruct.RecordHead` | main/src/pqm_func/harmfunc.cpp:1112-1152 | whatever is read as a record begins with ce cf, states its length less seven in bytes 4 and 5, and its resolution in byte 6 |
| `InterStruct.HarmFunc.MakeInterStruct` | main/src/pqm_func/harmfunc.cpp:1097-1155 | reading the record back gives exactly the nonzero entries that the limit check passes, and nothing is reported when there are none |
| `PackedPixels.PixelsMakeByte` | gui/src/GUI/display/vga.c:141-152 | the pixels of a byte determine it |
| `PackedPixels.LowBitsAreModulo` | gui/src/GUI/display/vga.c:143-151 | the low bits of a source pixel are its value modulo the number of shades |
| `PackedPixels.Replace` | gui/src/GUI/display/vga.c:169-174 | clearing and merging replaces one pixel by the low bits of the source and leaves the others of the byte |
| `VgaBlit.PutRun` | gui/src/GUI/display/vga.c:167-175 | the loop over a first or last byte |
| `VgaBlit.WholeByte` | gui/src/GUI/display/vga.c:180-191 | a middle byte is built from its pixels alone |
| `VgaBlit.NextPixel` | gui/src/GUI/display/vga.c:180-200 | each byte starts with the next source pixel |
| `VgaBlit.BitMemcpy` | gui/src/GUI/display/vga.c:133-204 | the three-part copy sets exactly the pixels of the run, at any alignment, width and depth of 1, 2 or 4 bits |
| `VgaBlit.RowUpdated` | gui/src/GUI/display/vga.c:238-243 | a row copied is a row of the rectangle |
| `VgaBlit.LeftAlone` | gui/src/GUI/display/vga.c:229-243 | a byte without a pixel in the rectangle keeps all its bits |
| `VgaBlit.Update` | gui/src/GUI/display/vga.c:229-243 | every pixel in the rectangle is the low bits of its source pixel, every other pixel is unchanged |

## Left out

- Sockets, serial lines, SPI, watchdog, clocks, shared memory, threads, files and printing: inputs are parameters.
- The graphical interface beyond the packed-pixel copy, configuration, login, audit and user management.
- Floating-point measurement (power, THD, flicker, square roots, unbalance) and rounding in general.
- PqbStream.Stream: fair reads take at most eight frames to accept and do not end one byte behind a frame they complete; the exact behaviour outside is in PqbLoss. Reported offsets are claimed at acceptance, not at return, since a partial tail may be moved over them.
- PqbPack.EndToEnd: the line carries the receiver's four-byte preamble in place of the sender's six bytes, as the two ends of the protocol have different preambles.
- TenCycle.Resampler.GetRsmplSrc: sample values, time stamps and the rapid-change pointers are not modelled, only positions and counts; a queue that runs empty inside the loop cannot occur with ten cycles queued.
- SlidingRms.Phase.CalcRceRms: one phase at a time, without the hand-over to the event detector.
- AppPrtclGps.Protocol.SetIRIGBTime: ends with the fields given to the clock; the calendar conversion and the system clock are not modelled.
- TransientLog.StatTranst: the log is ordered by time, and if it holds more than 4097 events, no two have the same time; the configuration dialogue allows at most 1203.
- TransientTransfer.RepeatResends: for a transfer that has not been overrun, of at most as many events as the ring has slots, as the first request counts them.
- TransientTransfer.RunPasses: the files are the same throughout the run; repeats between two events and overruns, for which it does not hold, are in BoundaryRepeat and RunMovesAnchor.
- TransientCursor.Cursor.Serve: the files of the currents, the contents of packages and the bytes of the reply are not modelled; a repeat when no file could be opened asks for the position of a file that is not open, which is undefined in C and does nothing here.
- SlidingRuns.AllCalls: calls of fewer than 32 samples, and a recalculation after a number of samples that 32 does not divide, are excluded; what the recalculation does then is in SlidingRms.OldestSuffice.
- InterLimit.InterLimitHdl: the comparison with the limit is a parameter; the cut table is a value and not a local array.
- Interpolate.Resample: a null sector is an empty one, and sources of 1 to 2048 samples, which read beyond their end, are excluded.
- VgaBlit.Update: 8 bits a pixel and more, which copy whole bytes, are not modelled.
- DetectCycs, HandleRce, the resend queue, MessageQueue, FreeQueue, DataStatis and Yday2Mday are not modelled.

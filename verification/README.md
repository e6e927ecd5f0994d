# A verified model of the capture-and-decode pipeline

The firmware taps a bus with a small co-processor program (the eMCU, "PIOC"), drains its FIFO,
frames or squelches the bytes and ships them over USB; Python and JavaScript decoders turn the
bytes back into MDIO, CAN or DMX frames. A second program and driver act as an MDIO master. This
project models both ends and proves that what the host reports is what the pin did.

Four paths, each from the hardware step to the host's answer:

- **Clocked path.** `ClockedBlob` (the sampling program, one micro-step at a time, and its 16-slot
  FIFO), `ClockedSniffer` (`service()` with a program step possible between any two register
  reads; `ClockedCalls` says what a call decides as a function of its inputs, `ClockedLedger` holds the
  books of what is where, `ClockedTimes` what the records' times mean, `ClockedFlush` says what a flush
  loses),
  `Cobs` and `RecordFramer` (envelope and its demultiplexer), `HostCapture` (record joiner, seams,
  reset rules, events), `Clause22` (frame hunter, batch and streaming), `Mmd` (MMD folding).
  `ClockedToUsb` takes the path on to the endpoint.
- **Run-length path.** `RunCodec` (counting program, reconstruction, batch parser, byte-at-a-time
  reader), `RleSniffer` (30-slot FIFO with an 8-bit HEAD, a drain interrupt that may fire between
  any two steps of the main loop, RAM ring, loss marker), `Squelch`, `RleWire` (what the wire carries
  besides run bytes), then `Crc15`, `CanBits`, `CanDecode` for CAN and `DmxTimeline`, `DmxDecode`,
  `DmxTolerance`, `DmxStream`, `DmxEncode` for DMX. `RleToCan` and `RleToDmx` compose the whole path.
- **Active master.** `MdioMailbox` (the 64-clock program behind a doorbell), `MdioMaster` (the
  driver polling it), `MdioWire` (what its requests look like to the sniffer's decoder), `MdioText`,
  `MdioCommand`, `MdioBridge` (the ASCII bridge). `MdioEndToEnd` puts the master's wire under the
  clocked sniffer.
- **Substrate.** `Ring` (free-running counters, reserved spans) and `UsbCdc` (EP3 packets, EP2
  flow control). `Bytes` holds bits and bytes.

How it is modelled. Objects whose methods update fields are classes with those fields; the ghost
fields beside them record history (every sampled bit, every stored byte, every finished request)
so that `Valid()` can relate the small modular counters to it. Whatever the code cannot control is
a parameter: clock readings, the level of a pin, how far a concurrent program runs before a register
access (a sequence of levels or bytes), how often an interrupt fires, what the host does. A theorem
about a valid object therefore speaks about every interleaving that could have led to it. Loops
are methods proved equal to a specification function, and the laws of the module are about that
function; rows below that only name a loop state this equality. Unit intervals, biases and bit
positions of the decoders are reals.

Hypotheses a reader should know:

- `log.clean` in the clocked path: no FIFO lap and no wrap of the 16-bit loss counter to zero.
  `log.dropped`: some record found no room. `log.lost` counts the samples lost in flushes, `log.twice`
  the bits sent twice by a flush that read ACC between the publication of the byte drained last and
  the re-seeding of ACC; `log.Exact()` is `clean` with none of either.
- `t.aligned` and `t.intact` in the run-length path: every drain had a true lag below 256, and no
  slot was overwritten while a drain was about to read it. `Unbroken`: each boundary of the idle branch
  follows a mark of the squelch (`AllMarked`), for which it is enough that by the history of calls the
  main loop was never without a byte for more than 3 ms (`AllFed`, `RleSniffer.Session`).
- `waits` in the master notes for each transaction whether the program waited for a doorbell when it was
  started; `clean` says that it always did.

What the proofs found:

- Pending samples are not flushed only while the clock is stopped. The time-cap cut leaves
  `partialOnlyIdle` (src/sniffer/clocked_sniffer.cpp:226-237) measuring from the time samples were
  first pending, and the ordinary idle branch (229-231) measures from the last whole byte, so a clock
  slower than a byte in 3 ms meets it as well. `ClockedFlush.TimeCapFlush` and
  `ClockedFlush.IdleFlush` are runs in which the host gets other bits than the pin had;
  `ClockedFlush.Session` has the exact condition. A sample between the reading of HEAD and
  that of ACC is harmless unless it completes a byte: it is flushed with the others.
- A timeout by itself is harmless, whether or not the program is still busy: if it waits again when
  the next transaction is started, everything told afterwards is true, and 73 program steps before a
  request are enough for that (`MdioMaster.Session`).
  If it does not, then although STATUS is cleared before GO, some schedule makes the client believe a
  transaction that never happened (`MdioMaster.FalseDone`, `MdioMaster.FalseStart`);
  `MdioMaster.StaleStatus` is a run from a timeout to a false `Done`. When the program waits again with
  no request under way, the guarantee is back (`MdioMaster.Afresh`).
- A `Ring` keeps its order across the 2^32 counter wrap exactly when its capacity divides 2^32
  (`Ring.OrderSurvivesWrap`); the header only speaks of the size staying correct up to 2^31. All
  capacities in use are powers of two.
- A streamed frame can report a shorter preamble than the batch decoder, never below 32:
  `Clause22.ShorterPreamble` is an example, `Clause22.StreamedExactly` says when the counts agree.
- A loss-free run-length capture can carry more boundaries than the squelch put there: a byte that
  waits in the RAM ring behind an inline idle mark makes the idle branch write a second one. It is
  harmless exactly between runs (`RleWire.IdleHarmless`); inside an open run, which takes a program
  that stores nothing for 3 ms, it would cut the run.
- A CAN frame without data that no node acknowledges, and whose last CRC bit is recessive and not
  followed by a stuff bit, is never reported (`CanDecode.DecodeEmpty`, `CanDecode.EmptyFrameLost`): the
  parser checks the length (scripts/can_rle_decode.py:249) before it pads (267-271). Acknowledged
  frames are all reported (`CanDecode.DecodeAcked`): the dominant ACK slot keeps the CRC out of the gap.
- DMX packets behind one idle boundary come out as one packet with framing errors
  (`RleToDmx.GroupsFromThePin`), and packets in front of the first boundary not at all: with boundaries
  in the stream the decoder looks for one BREAK in each region.
- A capture may end inside an idle line: the run is then open, and what the host sees of it is its
  idle mark, if it got one (`Squelch.OpenRun`).
- The sample that shows a change of level is not counted by the run-length program, so every block
  but the first is reported one tick short (`RunCodec.CountedBlocks`); the constant is part of the
  bias the receivers calibrate away.

## Main results

The table under "Model" lists every modelled member; these are the ones to read first.

- `Cobs.RoundTrip`, `RecordFramer.DemuxWire`: framing and envelope lose nothing, and recover behind garbage.
- `ClockedToUsb.HostGetsThePin`, `ClockedSniffer.HostReportsSlices`: the host's bits are the pin's bits over every
  interleaving, or with drops flagged slices of them.
- `ClockedSniffer.HostReportsTimes`: what the time, duration and onset of every record and burst mean.
- `ClockedSniffer.ClockedSniffer.Service`, `ClockedFlush.Session`: what calls decide is a function of their inputs, and over whole runs
  exactly which flushes lose or double samples; `ClockedFlush.TimeCapFlush` and `ClockedFlush.IdleFlush` are runs that do.
- `HostCapture.DecodeCapture`, `HostCapture.StretchesAreSlices`: frames and events across seams, never glued.
- `Clause22.StreamedExactly`: when streaming equals batch decoding, for every chunking.
- `RleSniffer.Conservation`, `RleSniffer.HostReadsThePin`, `RleSniffer.Session`: every published byte is accounted for,
  and the wire reads as what the pin did.
- `RunCodec.ReaderIsBatch`, `Squelch.SquelchMeaning`: reconstruction for any chunking, and what the squelch keeps.
- `Crc15.BurstNeverAccepted`, `CanBits.UnstuffStuff`, `CanDecode.CanEndToEnd`, `RleToCan.FramesFromThePin`: CAN.
- `DmxStream.DecodeMeasured`, `DmxStream.DecodeFramed`, `DmxEncode.DmxRoundTrip`, `RleToDmx.GroupsFromThePin`: DMX.
- `MdioMaster.Session`, `MdioMaster.FalseDone`, `MdioMaster.StaleStatus`: what a client may believe, and when it may not.
- `MdioWire.SnifferSeesRequests`, `MdioEndToEnd.HostReportsTheRequests`: driver and sniffer are inverse.
- `Mmd.DataRun`: the addresses of MMD data accesses for every function of the window.
- `MdioCommand.ParserIsTheLanguage`, `MdioCommand.UsualReads`: the command language.
- `MdioBridge.AnswerCommand`, `MdioBridge.AnswerPrint`: every command is answered, truly, and a print in full.
- `Ring.OrderSurvivesWrap`, `UsbCdc.Conservation`, `UsbCdc.KeepTaking`: the substrate loses nothing and holds nothing back.

## Model

| member | source | states |
|---|---|---|
| `MdioEndToEnd.HostReportsTheRequests` | app/test/mdio_codec.js:318-337 | From the clients of the active master to the events of the host: the sniffer sampled what the master and its program put on the wire, behind any bits that cannot begin a frame, its own program was restarted at most between transactions, and nothing was lost; then whatever the interleavings on both sides, the events `decodeCapture` gives are exactly one per request, with the phy, device, address, operation and value or no-response that client was told |
| `MdioEndToEnd.PiecesDecode` | app/test/mdio_codec.js:327-334 | Cut before the first transaction or between any two, the bits still give every frame, with the preamble of 32 at least |
| `MdioEndToEnd.HuntLead` | scripts/mdio_lib.py:60-89 | Behind bits in which no zero follows 32 ones, from any count, the hunter finds exactly the transactions that follow |
| `MdioEndToEnd.JoinedLate` | scripts/mdio_lib.py:60-89 | What is left of a transaction when the sniffer comes to it late are such bits |
| `MdioEndToEnd.HunterSeesThePin` | app/test/mdio_codec.js:318-337 | The bit strings the hunter works through between resets are exactly the bits sampled since start-up, cut exactly where the eMCU was restarted behind a flushed partial byte |
| `ClockedToUsb.HostGetsThePin` | src/main_sniffer.cpp:123-149 | From the pin to what the host has read off the endpoint: with no FIFO lap and no dropped record, for every interleaving of program steps, `service()` calls and packets, and nothing pending anywhere, the bits of the logical bursts are as many as were sampled, less those lost in flushes and with those sent twice, and are the sampled bits if and only if there are none, when only the one or only the other occurred |
| `ClockedToUsb.Turn` | src/main_sniffer.cpp:123-149 | One turn of the main loop: what the sniffer ships is what the endpoint was given, the host taking packets at any moment; something moves whenever something waits and there is room; the times of the records stay true |
| `ClockedSniffer.HostReportsThePin` | src/sniffer/clocked_sniffer.cpp:122-258 | The same up to the transmit ring; and if no sample was lost, records with non-zero valid bits end exactly at the restarts |
| `ClockedFlush.Session` | src/sniffer/clocked_sniffer.cpp:178-290 | Whole runs of `service()` in which no record is dropped: what the calls decide, and whether the FIFO laps, is a function of the state before them, the clock readings and the samples found at each register access; nothing is lost or doubled if and only if every flush so decided is harmless (samples were pending at its reading of ACC, no byte was complete that HEAD had not shown, and no sample came between that reading and the restart); once all is shipped the host has the bits of the pin if so, and only then unless a flush has sent bits twice; the history of drained bytes and their clock readings is a function of the same inputs, and the records' times stay true to it |
| `ClockedFlush.StoppedClock` | src/sniffer/clocked_sniffer.cpp:186-254 | With the clock stopped from the reading of HEAD on, a flush is harmless if and only if the program waits for the next sample, and doubles bits if and only if it has published a byte and not yet seeded ACC |
| `ClockedFlush.IdleFlush` | src/sniffer/clocked_sniffer.cpp:229-254 | A run through `service()`: one byte, 4 ms without another on a slow clock, a sample between the reading of ACC and MCU_START; the idle branch flushes, and the host has other bits than the pin |
| `ClockedFlush.TimeCapFlush` | src/sniffer/clocked_sniffer.cpp:226-254 | A run through `service()`: a byte every 3 ms, each drained by a call of its own with samples pending behind it, a time-cap cut at 52 ms, then a call half a millisecond later that drains no byte while the clock runs; `partialOnlyIdle` flushes, and the host has other bits than the pin |
| `ClockedFlush.FirstByte` | src/sniffer/clocked_sniffer.cpp:186-213 | A byte drained at 1 ms with three samples pending: where both runs begin |
| `ClockedFlush.NextByte` | src/sniffer/clocked_sniffer.cpp:194-258 | The next byte 3 ms later, up to the one that meets the time cap |
| `ClockedCalls.StillTurn` | src/sniffer/clocked_sniffer.cpp:178-224 | While the program stands still a call drains exactly what HEAD shows, laps nothing, and decides on that |
| `ClockedCalls.PendingCount` | src/sniffer/clocked_sniffer.cpp:215-217 | Between two bytes the sentinel of ACC stands above exactly the pending samples |
| `ClockedSniffer.HostReportsSlices` | src/sniffer/clocked_sniffer.cpp:124-155 | With any pattern of dropped records, logical bursts are contiguous, ordered, disjoint slices of the sampled bits, every hole is flagged, and so are the stretches the bit hunter sees: no frame is glued across a drop |
| `ClockedSniffer.HostReportsTimes` | src/sniffer/clocked_sniffer.cpp:107-155 | The times the host reads, over every run: its records hold the drained bytes in order, without a drop all of them; a record's tUs is the clock reading made at its first byte, onsetUs the reading at its eighth byte less that, capped, or 0 below eight bytes, durUs the reading made behind its last drained byte less that, capped; its bits are those of the pin from its first byte on; a logical burst has the time and onset of its first record and the sum of the durations |
| `ClockedTimes.BurstsJoin` | scripts/mdio_lib.py:264-318 | The bursts of any records are their chains, in order: time and onset of the first record of each, the durations of all |
| `ClockedTimes.KeepsByte` | src/sniffer/clocked_sniffer.cpp:195-206 | A drained byte keeps what is known of the open burst's times; the eighth fixes its onset |
| `ClockedTimes.KeepsSent` | src/sniffer/clocked_sniffer.cpp:127-153 | A record sent has the times of the bytes it holds |
| `RleToCan.FramesFromThePin` | scripts/can_rle_decode.py:146-356 | From the samples of the data pin through program, interrupt, RAM ring, squelch, wire, reconstruction, splitting, expansion, unstuffing and parsing: any list of standard frames, acknowledged or not, measured within half a UI, is reported from the bytes on the wire with the same ids, data and a good CRC, for every interleaving; missing are only unacknowledged frames without data whose last CRC bit is part of the gap. The main loop was never without a byte for more than 3 ms, or else the boundaries of the idle branch stand behind marks of the squelch |
| `RleToCan.SplitThick` | scripts/can_rle_decode.py:146-159 | A boundary repeated behind a boundary cuts off nothing |
| `RleToDmx.GroupsFromThePin` | scripts/dmx_rle_decode.py:158-215 | From the samples of the data pin, through the same firmware, to DMX, whatever the gaps: the packets between two squelched idle lines are decoded from the bytes on the wire as one, with all their slots in order and a framing error for each BREAK but the first; what stands in front of the first idle line is not reported; for every interleaving |
| `RleToDmx.PacketsFromThePin` | scripts/dmx_rle_decode.py:158-215 | With an idle line behind each packet these are exactly the packets, without framing errors |
| `RleToDmx.CloseFromThePin` | scripts/dmx_rle_decode.py:158-215 | With no idle line at all the packets are found by their BREAKs, exactly and without framing errors |
| `RleToDmx.SquelchedGroups` | src/sniffer/rle_sniffer.cpp:348-366 | The squelch puts a boundary in front of each group of packets |
| `RleToDmx.ThickFramed` | scripts/dmx_rle_decode.py:164-181 | A stream with boundaries repeated is one with boundaries that no packet follows |
| `RleSniffer.HostReadsThePin` | src/sniffer/rle_sniffer.cpp:321-407 | With every stored byte drained and none lost, the host reconstructs from the bytes on the wire the counted length of every finished level block, those of 150 or more continuation bytes cut short at an idle mark, with one boundary run more exactly where the idle branch wrote a boundary, whatever the budgets, TX spans and interrupts, provided these stand between runs |
| `RleSniffer.HostReadsRepeats` | src/sniffer/rle_sniffer.cpp:321-407 | When each of them follows a mark of the squelch, boundary runs are repeated and nothing else changes |
| `RleSniffer.Session` | src/sniffer/rle_sniffer.cpp:305-407 | Any number of calls with interrupts anywhere: each is in the history with its time and the bytes consumed and copied by its end, from which the time of the last activity follows; if by that history the main loop was never without a byte for more than 3 ms, each idle boundary written follows a mark of the squelch; while USB has room, each call takes a byte out of RAM if there is one |
| `RleWire.WireReads` | src/sniffer/rle_sniffer.cpp:339-407 | The runs on any wire without loss marks: those of the squelched bytes alone, grouped between the idle boundaries, and one boundary run between any two groups |
| `RleWire.IdleHarmless` | src/sniffer/rle_sniffer.cpp:402-404 | An idle boundary adds a boundary run and nothing else if and only if no run is open or the open one has its mark; otherwise it cuts the run |
| `RleWire.WireRepeats` | src/sniffer/rle_sniffer.cpp:402-404 | Behind marks of the squelch only boundary runs are repeated |
| `RleWire.OutSplits` | src/sniffer/rle_sniffer.cpp:339-407 | The bytes of successive calls add up |
| `RleSniffer.Conservation` | src/sniffer/rle_sniffer.cpp:141-201 | Published bytes = copied + ramDrop + overrun losses + lag; the RAM ring never holds more than 2047; copied bytes are FIFO bytes in order; consumed bytes went through the squelch once each in order, across counter wraps |
| `Cobs.RoundTrip` | src/util/cobs.hpp:30-108 | Decoding inverts encoding on every byte string, for both keyings |
| `Cobs.DecodeEnc` | src/util/cobs.hpp:71-108 | ... from every intermediate state of the encoder, an open group included |
| `Cobs.DelimiterFree` | src/util/cobs.hpp:6-16 | The delimiter never occurs in an encoding |
| `Cobs.SizeBound` | src/util/cobs.hpp:27-28 | An encoding never exceeds the announced worst case |
| `Cobs.SizeBoundReached` | src/util/cobs.hpp:27-28 | ... which is reached at every length by inputs free of the delimiter |
| `Cobs.Encode` | src/util/cobs.hpp:31-93 | The encoder that patches code bytes in place writes the encoding, within the bound |
| `Cobs.Decode` | src/util/cobs.hpp:56-108 | The decoder writes the decoded bytes, or returns 0 exactly on the malformed streams |
| `Cobs.CopyGroup` | src/util/cobs.hpp:104 | One group is copied, nothing before it changed |
| `RecordFramer.DemuxWire` | app/test/mdio_codec.js:209-228 | Any interleaving of framed records, metadata blocks and loss markers is read back as exactly those items in order |
| `RecordFramer.DemuxAfterGarbage` | app/test/mdio_codec.js:199-228 | A garbage prefix ended by 0xFF leaves all following items unaffected |
| `RecordFramer.Resync` | app/test/mdio_codec.js:209-228 | A boundary cuts the stream into independent halves, whatever segment is open |
| `RecordFramer.SegmentOfWire` | src/sniffer/record_framer.hpp:59-92 | A framed item is one segment ended by the only boundary in it, and reads back as itself |
| `RecordFramer.ParseSerialized` | scripts/mdio_lib.py:227-236 | The host reads back every record the device can write |
| `RecordFramer.ParseIsPrefix` | scripts/mdio_lib.py:227-236 | The parser finds a record exactly when the bytes begin with one that the device could have written, and then that one |
| `RecordFramer.RecordBytes` | src/sniffer/clocked_sniffer.cpp:126-141 | The twelve header bytes one by one, least significant first, and the payload behind them |
| `RecordFramer.RecordFits` | src/sniffer/clocked_sniffer.cpp:126-144 | The 785-byte buffer holds the worst framed record, and is filled exactly by it |
| `RecordFramer.FrameRecord` | src/sniffer/record_framer.hpp:59-66 | The buffer holds the encoded record and one boundary |
| `RecordFramer.FrameMeta` | src/sniffer/record_framer.hpp:71-84 | A printable block starting with [ is framed; anything else gives 0 |
| `RecordFramer.FrameLoss` | src/sniffer/record_framer.hpp:87-92 | The two bytes of a loss marker |
| `RecordFramer.DemuxV2` | app/test/mdio_codec.js:209-228 | Records, metadata and the loss count are those of the demultiplexed items |
| `RecordFramer.Flush` | app/test/mdio_codec.js:212-221 | One finished segment is filed under exactly one of the three |
| `Clause22.StreamedExactly` | scripts/mdio_lib.py:91-117 | For any chunking, the streamed frames are the batch frames, preamble counts included, if and only if at each chunk the preamble its first frame opens from begins inside the 80-bit carry |
| `Clause22.ShorterPreamble` | scripts/mdio_lib.py:98-117 | A chunk of 100 ones, then a frame: the batch decoder counts 100, the streaming one 80 |
| `Clause22.CutIsExact` | scripts/mdio_lib.py:98-117 | The same for one chunk; and the next carry does not depend on what was cut |
| `Clause22.CarryIs` | scripts/mdio_lib.py:111-117 | The carry is the end of what batch decoding leaves unread |
| `Clause22.StreamedIsBatch` | scripts/mdio_lib.py:98-117 | For any chunking, the frames streamed so far are those of everything fed (preamble counts may only shrink, to 32 at least) |
| `Clause22.TracksFeed` | scripts/mdio_lib.py:111-117 | Feeding a chunk keeps the carry equivalent to everything fed, for any continuation |
| `Clause22.Resume` | scripts/mdio_lib.py:111-117 | The hunter may be stopped anywhere and resumed on its unread tail |
| `Clause22.Forget` | scripts/mdio_lib.py:98-103 | A shorter count of preamble ones behind 64 bits finds the same frames |
| `Clause22.Truncate` | scripts/mdio_lib.py:103-117 | 80 bits of carry are enough for every continuation |
| `Clause22.DecodeBitsPos` | scripts/mdio_lib.py:60-89 | The scanning loop returns all frames and the end of the last one |
| `Clause22.FrameBitByBit` | scripts/mdio_lib.py:70-88 | Behind any number n of ones, a zero and 31 more bits are a frame if and only if n is at least 32 and a one comes next; its fields are these bits one by one, with the preamble n, and it is an unanswered read exactly if OP is 10 and the eighteen bits behind the register are ones |
| `Clause22.BitStream.constructor` | scripts/mdio_lib.py:105-106 | An empty carry |
| `Clause22.BitStream.Reset` | scripts/mdio_lib.py:108-109 | Everything fed before is forgotten |
| `Clause22.BitStream.Feed` | scripts/mdio_lib.py:111-117 | The frames of this chunk extend the frames of the stream and are those of carry and chunk; the carry stays bounded and equivalent |
| `HostCapture.FlagsCarry` | src/sniffer/clocked_sniffer.cpp:135-138 | The flags byte carries overflow, continuation and tail count independently, in bits 0, 1, 2 and 3..5 |
| `HostCapture.RecordsFromBinary` | app/test/mdio_codec.js:246-256 | The valid type-1 records of the demultiplexed stream, in order |
| `HostCapture.BurstJoiner.constructor` | scripts/mdio_lib.py:270-275 | No open chain |
| `HostCapture.BurstJoiner.Feed` | scripts/mdio_lib.py:277-296 | A continued record extends the chain; a terminal one yields the burst and closes it |
| `HostCapture.LogicalBursts` | scripts/mdio_lib.py:310-318 | The bursts of the records; a flagged record drops the open chain |
| `HostCapture.SeamsAreFlagged` | scripts/mdio_lib.py:310-318 | Whatever records were dropped, bursts are ordered disjoint slices and a burst that does not start where the previous ended is flagged |
| `HostCapture.GapFree` | scripts/mdio_lib.py:264-318 | Without flagged bursts the bursts hold the sampled bits gap-free |
| `HostCapture.DecodeCapture` | app/test/mdio_codec.js:318-337 | The frames are those of the stretches between resets, and the events are folded from them, from empty tables behind each flagged burst |
| `HostCapture.EpochsAreStretches` | app/test/mdio_codec.js:325-335 | The stretches between two flagged bursts, put together, are all stretches; without a flagged burst the tables are never forgotten |
| `HostCapture.StretchesAreSlices` | app/test/mdio_codec.js:318-337 | No stretch of the hunter spans a hole |
| `ClockedBlob.RclStep` | pioc/clocked_sniffer.ASM:38-49 | Seven rotations keep the seed above the samples; the eighth leaves exactly the byte |
| `ClockedBlob.SeedPosition` | pioc/clocked_sniffer.ASM:38-44 | The seed gives the number of pending samples and clearing it leaves them |
| `ClockedBlob.ReadIsStored` | src/sniffer/clocked_sniffer.cpp:195-197 | The byte read as index j is the j-th stored byte while at most j + 16 stores are completed |
| `ClockedBlob.StoreRetains` | pioc/clocked_sniffer.ASM:79-83 | A store keeps the last 16 bytes in their slots |
| `ClockedBlob.AccIs` | pioc/clocked_sniffer.ASM:37-84 | ACC holds the pending samples below their seed, or the last byte until the next seed |
| `ClockedBlob.Blob.constructor` | pioc/clocked_sniffer.ASM:32-44 | State after MCU_START |
| `ClockedBlob.Blob.Step` | pioc/clocked_sniffer.ASM:37-84 | Sample, store, publish, wrap in this order: which step comes next, what it samples and stores, and that published bytes are always stored |
| `ClockedBlob.Blob.Run` | pioc/clocked_sniffer.ASM:37-84 | Any number of steps between two reads |
| `ClockedBlob.Blob.Restart` | src/sniffer/clocked_sniffer.cpp:57-63 | The program starts over, HEAD cleared, pending samples given up |
| `ClockedLedger.BooksByte` | src/sniffer/clocked_sniffer.cpp:198-202 | A drained byte extends the open burst by its eight samples |
| `ClockedLedger.BooksPartial` | src/sniffer/clocked_sniffer.cpp:232-241 | The flushed byte extends it by the pending samples; what it leaves out is counted as lost, what it repeats as doubled |
| `ClockedLedger.PartialByte` | scripts/mdio_lib.py:40-50 | ... which the host recovers exactly |
| `ClockedLedger.BooksSent` | src/sniffer/clocked_sniffer.cpp:145-152 | A staged record takes the burst over, with flags that are true |
| `ClockedLedger.BooksDropped` | src/sniffer/clocked_sniffer.cpp:153-155 | A record without room is remembered in the loss counter |
| `ClockedLedger.HostReads` | app/test/mdio_codec.js:246-256 | Once the ring is empty the host has read exactly the records sent |
| `ClockedLedger.HostSeesThePin` | src/sniffer/clocked_sniffer.cpp:122-258 | The bits on the wire, given balanced books: as many as were sampled, less the lost and with the doubled ones, and the sampled bits if and only if there are none, when only the one or only the other occurred |
| `ClockedLedger.HostSeesSlices` | src/sniffer/clocked_sniffer.cpp:122-155 | With drops: slices and flagged holes, given balanced books |
| `ClockedSniffer.ClockedSniffer.constructor` | src/sniffer/clocked_sniffer.cpp:66-84 | begin(): a boundary and the mode marker are staged and the books are open |
| `ClockedSniffer.ClockedSniffer.RingPush` | src/sniffer/clocked_sniffer.hpp:42-43 | Whole or not at all |
| `ClockedSniffer.ClockedSniffer.EmitModeMarker` | src/sniffer/clocked_sniffer.cpp:162-168 | The marker goes in whole between records, or not |
| `ClockedSniffer.ClockedSniffer.WriteRecord` | src/sniffer/clocked_sniffer.cpp:126-141 | The scratch buffer holds the serialized record with these five fields |
| `ClockedSniffer.ClockedSniffer.EncodeRecord` | src/sniffer/clocked_sniffer.cpp:126-144 | It is framed within the static buffers |
| `ClockedSniffer.ClockedSniffer.EmitRecord` | src/sniffer/clocked_sniffer.cpp:122-156 | The record is staged whole with true flags and the counters cleared, or counted as lost; the books stay balanced, and the record's times are those of the readings at its bytes if the open burst's were |
| `ClockedSniffer.ClockedSniffer.StageRecord` | src/sniffer/clocked_sniffer.cpp:143-155 | The framed record goes in whole, or is counted as lost |
| `ClockedSniffer.ClockedSniffer.ReadSlot` | src/sniffer/clocked_sniffer.cpp:196 | The slot holds the byte of the logical index unless the program lapped |
| `ClockedSniffer.ClockedSniffer.OpenBurst` | src/sniffer/clocked_sniffer.cpp:198-201 | A burst is opened with its time, an open one left alone |
| `ClockedSniffer.ClockedSniffer.AppendByte` | src/sniffer/clocked_sniffer.cpp:197-206 | The byte joins the burst; the clock estimate is stamped at the eighth byte and only there |
| `ClockedSniffer.ClockedSniffer.TakeByte` | src/sniffer/clocked_sniffer.cpp:195-212 | One turn of the drain loop, the payload-cap split included, keeps all invariants; the byte is entered with the clock readings made at it, and the times kept stay true |
| `ClockedSniffer.ClockedSniffer.ReadByte` | src/sniffer/clocked_sniffer.cpp:196-206 | A byte comes out of its slot and joins the burst, with the sampled bit it starts with and its clock readings |
| `ClockedSniffer.ClockedSniffer.StampByte` | src/sniffer/clocked_sniffer.cpp:198-206 | The byte joins the burst with its readings: the first opens it, the eighth gives the onset |
| `ClockedSniffer.ClockedSniffer.TakeNth` | src/sniffer/clocked_sniffer.cpp:195-212 | The n-th turn of the loop uses the n-th readings of the call |
| `ClockedSniffer.ClockedSniffer.CutBurst` | src/sniffer/clocked_sniffer.cpp:208-211 | A cut at a byte boundary loses nothing |
| `ClockedSniffer.ClockedSniffer.DrainFifo` | src/sniffer/clocked_sniffer.cpp:194-213 | Everything up to the HEAD read is drained, in order; a lap is met if and only if a slot was overwritten before it was read |
| `ClockedSniffer.ClockedSniffer.RunOn` | src/sniffer/clocked_sniffer.cpp:178-258 | The program runs on between two register reads; everything booked stays true |
| `ClockedSniffer.ClockedSniffer.SkipLapped` | src/sniffer/clocked_sniffer.cpp:187-193 | The overrun is counted and the cursor set to the oldest valid slot, exactly when the gap exceeds 16 |
| `ClockedSniffer.ClockedSniffer.SeekHead` | src/sniffer/clocked_sniffer.cpp:186-193 | A lapped FIFO is entered at its oldest slot; otherwise the lag is the true lag |
| `ClockedSniffer.ClockedSniffer.WatchPartial` | src/sniffer/clocked_sniffer.cpp:215-223 | The number of pending samples and since when there are some |
| `ClockedSniffer.ClockedSniffer.AddPartial` | src/sniffer/clocked_sniffer.cpp:238-241 | The pending samples, MSB-justified, end the burst; what they leave out is lost |
| `ClockedSniffer.ClockedSniffer.Collect` | src/sniffer/clocked_sniffer.cpp:183-213 | Heartbeat, HEAD and the drain loop: everything HEAD showed is drained, by the stated function of the inputs; the bytes are entered with the readings of this call |
| `ClockedSniffer.ClockedSniffer.Swallow` | src/sniffer/clocked_sniffer.cpp:186-213 | HEAD and everything it shows: each byte has its own readings, and the last reading of the call stands behind the last |
| `ClockedSniffer.ClockedSniffer.Decide` | src/sniffer/clocked_sniffer.cpp:225-258 | Flush, close, cut or nothing, by the three guards |
| `ClockedSniffer.ClockedSniffer.ReadAcc` | src/sniffer/clocked_sniffer.cpp:215-217 | The accumulator and the position of its sentinel |
| `ClockedSniffer.ClockedSniffer.PutByte` | src/sniffer/clocked_sniffer.cpp:197-206 | One byte more in the burst |
| `ClockedSniffer.ClockedSniffer.SplitFull` | src/sniffer/clocked_sniffer.cpp:208-211 | A full burst is continued in the next record, and ends at the reading made then |
| `ClockedSniffer.ClockedSniffer.CloseBurst` | src/sniffer/clocked_sniffer.cpp:242-249 | A terminal record is sent: burst, partial or an empty one closing a continued chain; its times are true |
| `ClockedSniffer.ClockedSniffer.RestartBlob` | src/sniffer/clocked_sniffer.cpp:250-254 | The flushed samples cannot be sent twice; what is sampled until then is lost |
| `ClockedSniffer.ClockedSniffer.Flush` | src/sniffer/clocked_sniffer.cpp:231-254 | A flush leaves nothing pending, restarts exactly when samples were flushed, and loses or doubles none if and only if samples were pending when ACC was read, every complete byte had been drained, and no sample has come since |
| `ClockedSniffer.ClockedSniffer.Finalize` | src/sniffer/clocked_sniffer.cpp:225-258 | After it no burst or chain is open longer than 3 ms after the last byte unless a record was dropped, and no pending partial stays longer |
| `ClockedSniffer.ClockedSniffer.Heartbeat` | src/sniffer/clocked_sniffer.cpp:183 | The marker once a second, never inside a record |
| `ClockedSniffer.ClockedSniffer.DrainToUsb` | src/sniffer/clocked_sniffer.cpp:268-290 | A prefix of the ring, limited by all four bounds, goes out verbatim |
| `ClockedSniffer.ClockedSniffer.Service` | src/sniffer/clocked_sniffer.cpp:178-290 | One call keeps all invariants, drains every byte published before it, makes progress when USB has room, bounds how long anything stays pending, and loses or doubles samples exactly as its flush decides. Unless a record is dropped, it is lapped if and only if its inputs say so, and what it sees and leaves behind is the stated function of the state before it, the clock readings and the samples; with drops the only difference is whether a chain is open. The bytes it drains are entered in the history of readings, in order and with the readings of this call, as many as HEAD shows; what records and the open burst say of times stays true |
| `ClockedSniffer.PartialBits` | src/sniffer/clocked_sniffer.cpp:215-217 | The position of the highest set bit |
| `ClockedSniffer.PartialRead` | src/sniffer/clocked_sniffer.cpp:232-241 | On a stopped clock the flushed byte holds exactly the pending samples |
| `RleSniffer.Fifo.constructor` | pioc/rle_sniffer.ASM:30-32 | State after start |
| `RleSniffer.Fifo.Step` | pioc/rle_sniffer.ASM:39-43 | Store, publish, wrap in this order; published bytes are always stored |
| `RleSniffer.Fifo.Run` | pioc/rle_sniffer.ASM:35-84 | Any number of steps between two accesses |
| `RleSniffer.StoreRetains` | pioc/rle_sniffer.ASM:39-43 | A store keeps the last 30 bytes in their slots |
| `RleSniffer.DrainCursors` | src/sniffer/rle_sniffer.cpp:141-194 | With a true lag below 256 both cursors keep counting right (modulo 256 and modulo 30), overrun or not |
| `RleSniffer.RingArithmetic` | src/sniffer/rle_sniffer.hpp:77-80 | Occupancy and indices are right across the 16-bit wrap |
| `RleSniffer.RleSniffer.constructor` | src/sniffer/rle_sniffer.cpp:212-229 | begin(): all cursors and counters agree |
| `RleSniffer.RleSniffer.Look` | src/sniffer/rle_sniffer.cpp:141-157 | HEAD is read; gap and entry slot are those of the true lag |
| `RleSniffer.RleSniffer.Enter` | src/sniffer/rle_sniffer.cpp:146-157 | A lapped FIFO is entered at its oldest slot |
| `RleSniffer.RleSniffer.Grab` | src/sniffer/rle_sniffer.cpp:181-186 | The byte read for index j is the j-th stored one while at most j + 30 are stored; it lands in the next RAM cell |
| `RleSniffer.RleSniffer.CopyOne` | src/sniffer/rle_sniffer.cpp:181-186 | One copy extends the copied slice |
| `RleSniffer.RleSniffer.CopySlots` | src/sniffer/rle_sniffer.cpp:179-186 | The two loops copy a contiguous slice of the stored bytes |
| `RleSniffer.RleSniffer.DrainPioc` | src/sniffer/rle_sniffer.cpp:135-209 | One interrupt: copied bytes, drop and overrun counters and both cursors after it, exactly |
| `RleSniffer.RleSniffer.Interrupts` | src/sniffer/rle_sniffer.cpp:135-209 | Any number of interrupts leave the main loop's side alone |
| `RleSniffer.RleSniffer.RingCount` | src/sniffer/rle_sniffer.hpp:79 | The occupancy, read without a lock |
| `RleSniffer.RleSniffer.NextByte` | src/sniffer/rle_sniffer.cpp:347 | The next unread byte, unaffected by interrupts |
| `RleSniffer.RleSniffer.SquelchOne` | src/sniffer/rle_sniffer.cpp:348-366 | The squelch of one byte; activity is noted exactly while the open run has no mark |
| `RleSniffer.RleSniffer.Advance` | src/sniffer/rle_sniffer.cpp:368-370 | Exactly the bytes consumed leave the ring |
| `RleSniffer.RleSniffer.DrainRing` | src/sniffer/rle_sniffer.cpp:339-371 | A prefix of the unread bytes goes out squelched, within the TX span; activity is noted exactly if one was consumed and the open run has no mark |
| `RleSniffer.RleSniffer.Ship` | src/sniffer/rle_sniffer.cpp:315-372 | At most 192 bytes per call, and progress when USB has room |
| `RleSniffer.RleSniffer.AnnounceLoss` | src/sniffer/rle_sniffer.cpp:383-392 | A marker exactly when drops are unannounced and there is room; the watermark moves only with it |
| `RleSniffer.RleSniffer.CloseIdle` | src/sniffer/rle_sniffer.cpp:394-407 | The idle boundary exactly on an empty ring more than 3 ms after activity, retried while TX is full |
| `RleSniffer.RleSniffer.ShipAndMark` | src/sniffer/rle_sniffer.cpp:315-392 | Stage 2 and the loss marker: the bytes consumed go out squelched, then the marker if one is due |
| `RleSniffer.RleSniffer.Service` | src/sniffer/rle_sniffer.cpp:305-407 | One call with interrupts anywhere keeps all invariants and makes progress; a loss is announced when there is room; an idle boundary is written only behind the mark of the open run, or when no byte has been consumed for more than 3 ms |
| `RunCodec.BlobCounts` | pioc/rle_sniffer.ASM:35-84 | Only bytes 0x00..0x80 are stored, and their reconstruction is the counted lengths |
| `RunCodec.BlobIsRuns` | pioc/rle_sniffer.ASM:35-84 | The stored bytes are the encoded finished lengths and the continuation bytes of the open block |
| `RunCodec.CountedBlocks` | pioc/rle_sniffer.ASM:35-66 | The counted length of a block is its length, less the sample that ended the one before |
| `RunCodec.RunBlob` | pioc/rle_sniffer.ASM:35-84 | The two counting loops store these bytes |
| `RunCodec.RebuildRuns` | scripts/can_rle_decode.py:167-187 | Reconstruction inverts the device encoding of any run list |
| `RunCodec.ReconstructContinuation` | scripts/can_rle_decode.py:167-187 | The summing loop |
| `RunCodec.CaptureToRuns` | scripts/can_rle_decode.py:455-484 | The batch parser: metadata skipped, boundaries kept, continuation bytes summed |
| `RunCodec.JoinSegments` | scripts/can_rle_decode.py:479-483 | A boundary between any two segments |
| `RunCodec.ScanIsBatch` | scripts/can_rle_decode.py:803-838 | The byte-at-a-time scan equals the batch parser from each of its states |
| `RunCodec.ReaderIsBatch` | scripts/can_rle_decode.py:455-484 | For any chunking, with metadata, boundaries and stray 0xFE, the reader has the runs of the whole capture |
| `RunCodec.Reader.constructor` | scripts/can_rle_decode.py:803-804 | Outside any block |
| `RunCodec.Reader.TakeByte` | scripts/can_rle_decode.py:803-838 | One turn of the byte loop |
| `RunCodec.Reader.Feed` | scripts/can_rle_decode.py:803-839 | A chunk adds the runs it completes |
| `Squelch.SquelchMeaning` | src/sniffer/rle_sniffer.cpp:348-366 | The host reads the device runs, each with K or more continuation bytes replaced by 128*(K-1) and a boundary, an open run included, for every K >= 1 |
| `Squelch.SquelchSplits` | src/sniffer/rle_sniffer.cpp:339-371 | The output is the same for every sequence of budgets and spans |
| `Squelch.HostReadsRun` | src/sniffer/rle_sniffer.cpp:348-366 | ... one run, from any point inside it |
| `Squelch.HostReadsOpen` | src/sniffer/rle_sniffer.cpp:348-359 | ... a run still open |
| `Squelch.IdleVanishes` | src/sniffer/rle_sniffer.cpp:349-364 | Behind the boundary the rest of the run disappears |
| `Squelch.RawMeaning` | src/sniffer/rle_sniffer.cpp:20-35 | K = 0 passes everything |
| `Crc15.Linear` | scripts/can_rle_decode.py:29-36 | The CRC is linear on equal-length strings |
| `Crc15.AppendedCrc` | scripts/can_rle_decode.py:29-36 | Appending the CRC leaves remainder zero |
| `Crc15.CheckIsRemainder` | scripts/can_rle_decode.py:272-278 | The receiver's comparison succeeds exactly on remainder zero |
| `Crc15.BurstDetected` | scripts/can_rle_decode.py:29-36 | Strings that differ only inside 15 bits have different CRCs, at any length |
| `Crc15.BurstNeverAccepted` | scripts/can_rle_decode.py:272-278 | Two such words never both check |
| `Crc15.CanCrc15` | scripts/can_rle_decode.py:29-36 | The register loop |
| `CanBits.UnstuffStuff` | scripts/can_rle_decode.py:40-68 | Unstuffing inverts stuffing, from every state |
| `CanBits.UnstuffConcat` | scripts/can_rle_decode.py:54-68 | Unstuffing distributes over concatenation with the state carried |
| `CanBits.UnstuffOnes` | scripts/can_rle_decode.py:54-68 | A recessive tail loses bits but gains none |
| `CanBits.StuffedIsCalm` | scripts/can_rle_decode.py:40-50 | A stuffed string never has six equal bits |
| `CanBits.Stuff` | scripts/can_rle_decode.py:40-50 | The stuffing loop |
| `CanBits.Unstuff` | scripts/can_rle_decode.py:54-68 | The unstuffing loop |
| `CanBits.BitsToRuns` | scripts/can_rle_decode.py:72-81 | The grouping loop |
| `CanBits.LengthsSpread` | scripts/can_rle_decode.py:72-81 | The runs laid end to end are the bits |
| `CanBits.FrameRuns` | scripts/can_rle_decode.py:330-341 | A frame is runs of 1..5 bits and a gap of 13..18 that swallows its recessive end |
| `CanDecode.CanEndToEnd` | scripts/can_rle_decode.py:146-356 | Frames encoded with continuation bytes come out of the host as sent, within the tolerance, whether or not the ACK slot is dominant; missing are exactly the unacknowledged frames without data whose last CRC bit is part of the gap |
| `CanDecode.DecodeEmpty` | scripts/can_rle_decode.py:248-279 | A frame without data that nobody acknowledges parses as sent if and only if its last CRC bit is not part of the gap |
| `CanDecode.EmptyFrameLost` | scripts/can_rle_decode.py:248-251 | It is for identifier 1: that frame, as `build_frame_bits` writes it, is never reported |
| `CanDecode.UnstuffBound` | scripts/can_rle_decode.py:54-68 | n runs of at most five bits hold at most 4n + 1 bits besides the stuff bits |
| `CanDecode.NotDropped` | scripts/can_rle_decode.py:146-159 | So what parses has more than eight runs, and the cut never drops it |
| `CanDecode.DecodeAll` | scripts/can_rle_decode.py:146-159 | A list of captured frames is split and decoded one by one |
| `CanDecode.DecodeOne` | scripts/can_rle_decode.py:146-279 | One captured frame of any length is reported as sent, although trailing recessive CRC bits vanished into the gap, or not at all in that one case, whether the cut drops its runs or the parser refuses them |
| `CanDecode.DecodeAcked` | scripts/can_rle_decode.py:146-279 | A frame with a dominant ACK slot is reported as sent, whatever its length and its CRC |
| `CanDecode.RunsOfAcked` | scripts/can_rle_decode.py:72-81 | Its runs are those of the stuffed frame with the CRC delimiter, the ACK slot, and a gap of 11 bits |
| `CanDecode.ParseLonger` | scripts/can_rle_decode.py:248-279 | Bits behind the CRC do not change what is parsed |
| `CanDecode.StandardReported` | scripts/can_rle_decode.py:248-279 | Any frame in the standard format, stuffed and with anything behind it, is reported field by field: identifier, remote request bit, length code up to 15 with at most eight bytes, data, and its CRC, which is right if and only if it is the CRC of what precedes |
| `CanDecode.ExtendedReported` | scripts/can_rle_decode.py:261-263 | A frame with a recessive IDE bit is reported as extended, with its eleven base identifier bits, whatever stands behind them |
| `CanDecode.LengthsOfSpread` | scripts/can_rle_decode.py:72-81 | Blocks of alternating level are the runs of the bits they make |
| `CanDecode.ParsePadded` | scripts/can_rle_decode.py:267-271 | Up to five missing recessive bits are padded right, and the CRC checks |
| `CanDecode.ExpandMeasured` | scripts/can_rle_decode.py:222-234 | Within half a UI, expansion gives back the bits |
| `CanDecode.ParseFrame` | scripts/can_rle_decode.py:248-279 | The parser with its cursor, padding and all three outcomes |
| `CanDecode.Take` | scripts/can_rle_decode.py:252-257 | n bits, most significant first |
| `CanDecode.DecodeBurstCal` | scripts/can_rle_decode.py:222-234 | The expansion loop |
| `CanDecode.SplitFrames` | scripts/can_rle_decode.py:146-159 | The splitting loop; fewer than eight runs are no frame |
| `RleToCan.SplitCaptured` | scripts/can_rle_decode.py:146-159 | Squelched or not, gaps cut the runs into exactly the frames |
| `Mmd.IncrementingRun` | scripts/mdio_lib.py:149-165 | A run of answered accesses with post-increment: access i is reported at the start address plus i, past the 16-bit wrap |
| `Mmd.DataRun` | scripts/mdio_lib.py:133-167 | A run of data accesses through the window, reads and writes in any order, answered or not: with function 1 all are reported at the address given, with function 2 the address has moved on by the answered accesses before, with function 3 by the writes before, past the 16-bit wrap; an address never seen stays unknown |
| `Mmd.AddressRun` | scripts/mdio_lib.py:144-153 | With function 0 the same accesses set the address: the last write stands, and only unanswered reads are reported |
| `Mmd.PhysApart` | scripts/mdio_lib.py:119-167 | The events of one PHY are those of its own frames: accesses to others, mixed in anywhere, change nothing |
| `Mmd.MmdFolder.constructor` | scripts/mdio_lib.py:123-126 | Nothing known |
| `Mmd.MmdFolder.Reset` | scripts/mdio_lib.py:128-129 | Nothing known any more |
| `Mmd.MmdFolder.Feed` | scripts/mdio_lib.py:131-167 | One frame: the tables after it and its event |
| `Mmd.MmdFolder.FeedAll` | app/test/mdio_codec.js:329-333 | The events of a frame list, tables carried along |
| `MdioWire.SnifferSeesRequests` | scripts/mdio_lib.py:60-167 | Decoding and folding the wire of any request list gives exactly one faithful event per request |
| `MdioWire.HuntTransaction` | scripts/mdio_lib.py:60-89 | One transaction is exactly one frame, and leaves the hunter at its start |
| `MdioWire.HuntAll` | scripts/mdio_lib.py:60-89 | ... so is any sequence of them |
| `MdioWire.Fields` | src/mdio/mdio_master.cpp:241-256 | The fields stand where the standard (22.2.4.5) has them |
| `MdioWire.LastSeen` | scripts/mdio_lib.py:81-83 | The decoder's no-response and value agree with the client's status and value |
| `MdioWire.FoldPlain` | scripts/mdio_lib.py:131-175 | A Clause-22 request gives its event if and only if it is outside the MMD window (or an unanswered read of it) |
| `MdioWire.FoldMmd` | scripts/mdio_lib.py:135-165 | An MMD request gives one event with its device and address, in every decoder state |
| `MdioWire.MmdWindow` | scripts/mdio_lib.py:135-165 | Function 00 then 01 reaches the named register (Annex 22D) |
| `MdioMailbox.FaithfulResult` | pioc/mdio_master.ASM:142-162 | Behind the last clock, STATUS and RES report the frame on the wire |
| `MdioMailbox.ClockKeeps` | pioc/mdio_master.ASM:65-148 | Each of the 64 clocks keeps the wire equal to the command (driven part) and the registers equal to the samples |
| `MdioMailbox.PathLength` | pioc/mdio_master.ASM:51-162 | From the doorbell to STATUS a read and a write take 72 steps (register accesses and clocks), and how many are left at each place |
| `MdioMailbox.Blob.constructor` | pioc/mdio_master.ASM:47-53 | Waiting for the doorbell |
| `MdioMailbox.Blob.ClockOne` | pioc/mdio_master.ASM:172-258 | One clock extends the wire by one bit and keeps the invariant |
| `MdioMailbox.Blob.Move` | pioc/mdio_master.ASM:51-93 | Between clocks nothing changes but the program's own progress; GO is taken once |
| `MdioMailbox.Blob.PublishStatus` | pioc/mdio_master.ASM:153-162 | STATUS last: when it turns non-zero the result bytes are those of this doorbell's frame |
| `MdioMailbox.Blob.Step` | pioc/mdio_master.ASM:51-162 | Any step keeps the invariant; a waiting program changes nothing; a busy one gets nearer to its end |
| `MdioMailbox.Blob.Run` | pioc/mdio_master.ASM:51-162 | ... so do any number of steps; after as many as were left it waits again |
| `MdioMaster.WireReadsBack` | src/mdio/mdio_master.cpp:87-273 | On the running master: with no request under way and none timed out, the sniffer reads from the wire exactly one event per request, agreeing with what each client was told |
| `MdioMaster.StatusMeans` | src/mdio/mdio_master.cpp:135-152 | A non-zero STATUS belongs to the current doorbell, and RES to its frame |
| `MdioMaster.Served` | src/mdio/mdio_master.cpp:215-235 | A request that ends has carried its plan and reports its last frame |
| `MdioMaster.Session` | src/mdio/mdio_master.cpp:87-156 | Any requests, polls and pauses in any order, the program going on between any two register accesses: a request is accepted exactly if all accepted before have ended, only a poll ends one, and behind a poll none is older than 5 ms. If the program waited at each start of a transaction, every request that did not time out has reported the frame its last transaction got, and the wire carries what was asked for, in order, timeouts included; it did wait if before each request the program got 73 steps |
| `MdioMaster.WireIsPosted` | src/mdio/mdio_master.cpp:241-261 | ... and the wire holds one frame per transaction started, in order, which is what the sniffer decodes |
| `MdioMaster.FalseDone` | src/mdio/mdio_master.cpp:134-152 | Conversely, for every read or write started while the program is busy there is a schedule in which its client is told done or unanswered although all that went over the wire is the transaction before |
| `MdioMaster.FalseStart` | src/mdio/mdio_master.cpp:134-213 | ... and for every MMD request: its client is told that no PHY answered, or its first transaction counts as done and the second has replaced it in the mailbox before the program has looked |
| `MdioMaster.Afresh` | src/mdio/mdio_master.cpp:112-156 | Once the program waits again with no request under way, the master is as new, whatever happened before: the guarantee holds from then on, and no real field is touched |
| `MdioMaster.SleptThrough` | src/mdio/mdio_master.cpp:134-139 | Such a state is reached through `submit` and `tick`: the program sleeps through a doorbell for more than 5 ms and the client is told of a timeout |
| `MdioMaster.StaleStatus` | src/mdio/mdio_master.cpp:112-156 | The whole run: the first write times out, the second, to another register, is reported as done, and the only frame on the wire is that of the first |
| `MdioMaster.Resting` | src/mdio/mdio_master.cpp:158-213 | If the program waits at the start of a transaction, whatever timed out before is over and accounted for |
| `MdioMaster.CommandBits` | src/mdio/mdio_master.cpp:244-256 | The four command bytes are the frame of the standard |
| `MdioMaster.AnswerCarries` | src/mdio/mdio_master.cpp:141-152 | The published answer carries the transaction; STATUS says what TA0 said |
| `MdioMaster.Master.constructor` | src/mdio/mdio_master.hpp:72-84 | No request |
| `MdioMaster.Master.Submit` | src/mdio/mdio_master.cpp:87-110 | Accepted exactly when the slot is free; Busy changes nothing |
| `MdioMaster.Master.Meanwhile` | src/mdio/mdio_master.cpp:134-135 | While the program waits, time passes without effect |
| `MdioMaster.Master.PutCommand` | src/mdio/mdio_master.cpp:253-256 | One command byte |
| `MdioMaster.Master.StartTransaction` | src/mdio/mdio_master.cpp:241-261 | Command posted, STATUS cleared before GO, one doorbell more; a busy program may finish its own transaction in between |
| `MdioMaster.Master.Ring` | src/mdio/mdio_master.cpp:258-259 | STATUS then GO |
| `MdioMaster.Master.Choose` | src/mdio/mdio_master.cpp:158-207 | The next transaction of the request's plan, in order |
| `MdioMaster.Master.StartNextTransaction` | src/mdio/mdio_master.cpp:158-213 | It is started and remembered; the guarantee is kept if and only if the program waits; a program that has n steps to go may write its STATUS between clearing and doorbell |
| `MdioMaster.Master.Finish` | src/mdio/mdio_master.cpp:263-273 | The client is told and the slot freed, once |
| `MdioMaster.Master.CompleteTransaction` | src/mdio/mdio_master.cpp:215-235 | Failure ends the request at once; success goes on until the plan is done |
| `MdioMaster.Master.ReadValue` | src/mdio/mdio_master.cpp:151 | The two result bytes of this transaction |
| `MdioMaster.Master.Tick` | src/mdio/mdio_master.cpp:112-156 | Every accepted request leaves Pending exactly once; a measure decreases unless the 5 ms are not over; what it does follows from the STATUS it reads; for each transaction started it is noted whether the program waited, and the guarantee is kept if and only if it always did |
| `MdioMaster.Master.Begin` | src/mdio/mdio_master.cpp:112-156 | The first transaction of a request is started and polled at once |
| `MdioMaster.Master.Poll` | src/mdio/mdio_master.cpp:134-156 | One look at STATUS |
| `MdioMaster.Master.Succeed` | src/mdio/mdio_master.cpp:151-152 | The value is fetched, and the request ends or goes on |
| `MdioMaster.Master.GiveUp` | src/mdio/mdio_master.cpp:136-139 | A timeout ends the request and costs no guarantee |
| `MdioMaster.Response.constructor` | src/mdio/mdio_master.hpp:32-37 | Idle |
| `MdioText.LinesAreSplit` | src/mdio/mdio_bridge.hpp:145-166 | The events of a stream are those of its lines split at CR or LF: 1..48 bytes ready, longer invalid, empty silent |
| `MdioText.Collect` | src/mdio/mdio_bridge.hpp:156-165 | Bytes of a line are collected in order, whatever their number |
| `MdioText.LineReader.constructor` | src/mdio/mdio_bridge.hpp:145-172 | An empty line |
| `MdioText.LineReader.Reset` | src/mdio/mdio_bridge.hpp:168-172 | A half-received line is forgotten |
| `MdioText.LineReader.PushByte` | src/mdio/mdio_bridge.hpp:145-166 | One byte: the event of the finished line, or one byte more |
| `MdioText.LineReader.Feed` | src/mdio/mdio_bridge.cpp:198-214 | A chunk's non-silent events |
| `MdioText.UintRoundTrip` | src/mdio/mdio_bridge.hpp:53-80 | Every spelling of an in-range number, decimal or hexadecimal with any padding and digits of either case, reads back as it; digits are the characters of "0123456789", "0123456789abcdef" and "0123456789ABCDEF", each worth its place |
| `MdioText.UintSound` | src/mdio/mdio_bridge.hpp:53-80 | ... and nothing else is read: what was consumed is such a spelling of the value |
| `MdioText.DecimalReads` | src/mdio/mdio_bridge.hpp:53-80 | The usual decimal text of any number, most significant digit first, with any zeros in front, reads back as that number |
| `MdioText.HexReads` | src/mdio/mdio_bridge.hpp:59-80 | So does its hexadecimal text behind 0x or 0X, in lower or upper case |
| `MdioText.ShownDecimal` | src/mdio/mdio_bridge.hpp:64-79 | Conversely every decimal spelling is that text with zeros in front |
| `MdioText.DigitIsShown` | src/mdio/mdio_bridge.hpp:67-70 | A character is taken for a digit exactly if it stands in that string, and then for its place |
| `MdioText.NumberSound` | src/mdio/mdio_bridge.hpp:64-79 | What the digit loop consumed spells the value |
| `MdioText.DigitsRead` | src/mdio/mdio_bridge.hpp:64-79 | The digit loop reads on to the first non-digit |
| `MdioText.ParseUint` | src/mdio/mdio_bridge.hpp:53-80 | The loop, with a value small enough for 32 bits at every step |
| `MdioCommand.ParserIsTheLanguage` | src/mdio/mdio_bridge.hpp:91-143 | A line parses to a command if and only if it is a writing of that command |
| `MdioCommand.UsualReads` | src/mdio/mdio_bridge.hpp:91-143 | Every command in range, written with its keyword, single blanks and decimal numbers, parses back to itself |
| `MdioCommand.PhraseParses` | src/mdio/mdio_bridge.hpp:91-143 | Every command, with any blanks and number spellings, parses back to itself |
| `MdioCommand.ParsedIsPhrase` | src/mdio/mdio_bridge.hpp:91-143 | What parses is such a writing |
| `MdioCommand.Parse` | src/mdio/mdio_bridge.hpp:91-143 | The parser with its cursor |
| `MdioCommand.ParseVerb` | src/mdio/mdio_bridge.hpp:104-110 | The verb and the blank behind it |
| `MdioCommand.ParseArgs` | src/mdio/mdio_bridge.hpp:112-142 | PHY, target, value and nothing behind them |
| `MdioCommand.ParseTarget` | src/mdio/mdio_bridge.hpp:116-125 | Device and register within their limits |
| `MdioCommand.SkipBlanks` | src/mdio/mdio_bridge.hpp:47-51 | Past the blanks |
| `MdioCommand.VerbIs` | src/mdio/mdio_bridge.hpp:82-89 | The keyword, or no move |
| `MdioBridge.AwaitPrint` | src/mdio/mdio_bridge.cpp:101-130 | Every accepted print ends, whatever the program, the PHYs and the host do meanwhile, on any clock that moves on; what is sent in each turn is the reply of the print, if one is due, and the answers to the lines of that turn; put together with those sent before, the replies are 32, registers 0..31 in order, each from its own read, with no other request between |
| `MdioBridge.AnswerPrint` | src/mdio/mdio_bridge.cpp:101-221 | From the command line on: an idle bridge whose next command is a print sends exactly these 32 replies, besides what it answers to other lines |
| `MdioBridge.AwaitReply` | src/mdio/mdio_bridge.cpp:69-113 | Every accepted read or write ends with exactly one reply, whatever the program, the PHYs and the host do meanwhile, on any clock that moves on: it names verb, PHY, device and register of the command, carries the value exactly for a read that is done, and says ok, no response or timeout exactly as the last outcome of the master does |
| `MdioBridge.AnswerCommand` | src/mdio/mdio_bridge.cpp:101-221 | From the command line on: an idle bridge whose next command is a read or write answers it so |
| `MdioBridge.ReplyAnswers` | src/mdio/mdio_bridge.cpp:63-87 | The reply to a finished request agrees with the master's outcome in status and value and with the command in all else |
| `MdioBridge.BusyNames` | src/mdio/mdio_bridge.cpp:89-93 | A command that comes while another is under way is turned away by name, a print register by register |
| `MdioBridge.AcceptedInRange` | src/mdio/mdio_bridge.hpp:115-130 | Accepted numbers are in range |
| `MdioBridge.UsbBridge.constructor` | src/mdio/mdio_bridge.hpp:28-29 | Nothing pending |
| `MdioBridge.UsbBridge.Start` | src/mdio/mdio_bridge.cpp:33-61 | Pending exactly when the master accepts |
| `MdioBridge.UsbBridge.MasterTick` | src/main_mdio.cpp:39 | The master runs on; it has one outcome more exactly when its request ends; the request gets ahead, or its transaction is at most 5 ms old |
| `MdioBridge.UsbBridge.Collect` | src/mdio/mdio_bridge.cpp:101-113 | One reply for a finished request, and it answers the command as the last outcome says |
| `MdioBridge.UsbBridge.PollResponse` | src/mdio/mdio_bridge.cpp:101-130 | ... and the next register of a print; a reply agrees with the last outcome; a print that ends is complete; unless the master is at work or nothing is to do, a measure decreases |
| `MdioBridge.UsbBridge.HandleCommand` | src/mdio/mdio_bridge.cpp:140-190 | Busy replies change nothing; otherwise the command is under way |
| `MdioBridge.UsbBridge.HandleLine` | src/mdio/mdio_bridge.cpp:132-196 | Invalid lines change nothing; otherwise the command is handled |
| `MdioBridge.UsbBridge.AnswerLine` | src/mdio/mdio_bridge.cpp:198-214 | One line event: its replies, and the command it starts |
| `MdioBridge.UsbBridge.PollCommand` | src/mdio/mdio_bridge.cpp:198-214 | The lines of the bytes at hand, each answered as it ends; an idle bridge takes up exactly the first command among them, a busy one is not disturbed |
| `MdioBridge.UsbBridge.Tick` | src/mdio/mdio_bridge.cpp:216-221 | One call: the reply of the finished request, then those of the lines; a print ends with all its replies or gets ahead |
| `MdioBridge.UsbBridge.MainLoop` | src/main_mdio.cpp:39-40 | One turn of the main loop: the reply of a finished request first, in agreement with its outcome, then those to the lines of the turn; a print ends complete, or gets ahead, or its read is under way for at most 5 ms |
| `MdioBridge.OneAccepted` | src/mdio/mdio_bridge.cpp:132-214 | Of all lines only the first command goes unanswered at once: the others get what a busy bridge answers |
| `DmxEncode.DmxRoundTrip` | scripts/dmx_rle_decode.py:212-261 | Any packets encoded back to back with a constant bias c, 20 times its size below UI, and no run as long as a boundary mark, decode at that UI to exactly these packets without framing errors if the BREAK is measured as 16 bit times or more, and to nothing otherwise |
| `DmxEncode.PacketMeasured` | scripts/dmx_rle_decode.py:242-261 | The encoder's bias is within the receiver's tolerance |
| `DmxEncode.PacketTicks` | scripts/dmx_rle_decode.py:242-261 | The encoder's runs are BREAK, mark, slots and idle |
| `DmxEncode.EncodePacket` | scripts/dmx_rle_decode.py:242-261 | The encoder |
| `DmxEncode.EncodeSlot` | scripts/dmx_rle_decode.py:249-252 | START, eight bits LSB first, two STOP bits |
| `DmxEncode.RunTicks` | scripts/dmx_rle_decode.py:254-261 | Runs in ticks |
| `DmxStream.DecodeMeasured` | scripts/dmx_rle_decode.py:158-215 | Without boundaries: packets with any per-run jitter below UI/20 decode exactly |
| `DmxStream.DecodeInverted` | scripts/dmx_rle_decode.py:47-66 | With the fallback for inverted wiring, where runs start LOW: packets that begin with their BREAK decode exactly as those behind an idle line do otherwise |
| `DmxStream.DecodeFramed` | scripts/dmx_rle_decode.py:158-215 | With boundaries, whatever stands before the first and however often they are repeated: the packets behind a boundary come out as one, exactly, with a framing error for each BREAK but the first |
| `DmxStream.GroupDecodes` | scripts/dmx_rle_decode.py:112-155 | Packets back to back in one region: all slots in order, and one error for each further BREAK |
| `DmxStream.BreakGlitch` | scripts/dmx_rle_decode.py:120-134 | A further BREAK is one framing error, and the sampler goes on with the first START behind it |
| `DmxStream.StreamDecodes` | scripts/dmx_rle_decode.py:167-181 | Regions cut at BREAKs give the packets |
| `DmxStream.FramedDecodes` | scripts/dmx_rle_decode.py:164-181 | Regions cut at boundaries give the groups |
| `DmxStream.PacketDecodes` | scripts/dmx_rle_decode.py:112-139 | Behind a BREAK the sampler reads the slots, and then what is left of the region |
| `DmxStream.OneBreak` | scripts/dmx_rle_decode.py:168-169 | A packet's only BREAK is its first segment |
| `DmxTolerance.SlotsDecode` | scripts/dmx_rle_decode.py:112-139 | All remaining slots are sampled exactly, then what is left of the region |
| `DmxTolerance.OneSlot` | scripts/dmx_rle_decode.py:119-138 | One turn of the sampler reads one slot and finds the next |
| `DmxTolerance.NextStart` | scripts/dmx_rle_decode.py:135-138 | Behind the STOP bits comes the next START |
| `DmxTolerance.SlotSampled` | scripts/dmx_rle_decode.py:120-128 | START, data and STOP are sampled right |
| `DmxTolerance.SlotBitByBit` | scripts/dmx_rle_decode.py:249-252 | A slot on the line: LOW, the byte from its lowest bit to its highest, two bit times HIGH |
| `DmxTolerance.SampleBit` | scripts/dmx_rle_decode.py:124-126 | A mid-bit sample up to nine bits behind an edge reads the right bit |
| `DmxTolerance.Drift` | scripts/dmx_rle_decode.py:112-116 | The error grows by less than UI/20 per run and starts anew at each edge |
| `DmxDecode.Resync` | scripts/dmx_rle_decode.py:100-139 | Each resynchronisation moves on to a later segment: the sampler ends |
| `DmxDecode.SampleByte` | scripts/dmx_rle_decode.py:123-126 | Eight mid-bit samples |
| `DmxDecode.UartSample` | scripts/dmx_rle_decode.py:112-139 | The sampling loop |
| `DmxDecode.FindBreakEnd` | scripts/dmx_rle_decode.py:142-155 | The end of the first BREAK of a region |
| `DmxDecode.AllBreaks` | scripts/dmx_rle_decode.py:168-169 | All BREAKs |
| `DmxDecode.DecodeTimeline` | scripts/dmx_rle_decode.py:158-181 | Packets and errors per region |
| `DmxDecode.DecodeWith` | scripts/dmx_rle_decode.py:212-215 | Levels, axis and decode |
| `DmxTimeline.LaidIsOrdered` | scripts/dmx_rle_decode.py:75-91 | Segments are contiguous and never empty |
| `DmxTimeline.LevelIn` | scripts/dmx_rle_decode.py:93-98 | Inside a segment its level is read |
| `DmxTimeline.FallsAt` | scripts/dmx_rle_decode.py:100-109 | The next falling edge is the first LOW start after p |
| `DmxTimeline.FallsLater` | scripts/dmx_rle_decode.py:100-109 | ... and is beyond p |
| `DmxTimeline.BisectIs` | scripts/dmx_rle_decode.py:94 | Bisection finds the one place where the starts pass p |
| `DmxTimeline.BisectSplits` | scripts/dmx_rle_decode.py:94 | ... and that place exists |
| `DmxTimeline.AssignLevels` | scripts/dmx_rle_decode.py:47-65 | Alternating levels, anchored anew at every boundary |
| `DmxTimeline.BuildTimeline` | scripts/dmx_rle_decode.py:75-91 | The axis |
| `DmxTimeline.FindFalling` | scripts/dmx_rle_decode.py:100-109 | The scan for a falling edge |
| `Ring.OrderSurvivesWrap` | src/util/ring.hpp:11-13 | Counters keep their cells across the 2^32 wrap if and only if the capacity divides 2^32 |
| `Ring.CellsApart` | src/util/ring.hpp:116-126 | Places less than a capacity apart are different cells |
| `Ring.SpanCell` | src/util/ring.hpp:60-66 | A contiguous span is contiguous in the buffer |
| `Ring.Ring.constructor` | src/util/ring.hpp:128-130 | Empty |
| `Ring.Ring.Clear` | src/util/ring.hpp:26 | Empty again |
| `Ring.Ring.Size` | src/util/ring.hpp:28 | Number of unread items, across the wrap |
| `Ring.Ring.Free` | src/util/ring.hpp:29 | Free cells |
| `Ring.Ring.FreeContig` | src/util/ring.hpp:60-65 | The longest writable span, never empty unless full |
| `Ring.Ring.Stage` | src/util/ring.hpp:66 | A byte written into the reserved span disturbs no unread item, even when the consumer pops meanwhile |
| `Ring.Ring.WriteCommit` | src/util/ring.hpp:67 | The committed bytes join the queue |
| `Ring.Ring.ReadContig` | src/util/ring.hpp:73-78 | The longest readable span |
| `Ring.Ring.Peek` | src/util/ring.hpp:79-80 | Its k-th byte |
| `Ring.Ring.ReadCommit` | src/util/ring.hpp:81 | Those bytes leave the queue |
| `Ring.Ring.CopyIn` | src/util/ring.hpp:103-114 | n items join behind what the consumer left, with pops anywhere in between |
| `Ring.Ring.Push` | src/util/ring.hpp:34-39 | As many as fit |
| `Ring.Ring.PushAll` | src/util/ring.hpp:49-54 | All or nothing |
| `Ring.Ring.Pop` | src/util/ring.hpp:84-95 | The oldest items leave in order, with pushes anywhere in between |
| `UsbCdc.Conservation` | src/usb/usb_cdc.cpp:134-235 | Between resets: delivered + in flight + queued = committed, in order; and the same for the host's bytes |
| `UsbCdc.KeepTaking` | src/usb/usb_cdc.cpp:134-235 | A host that keeps taking packets receives everything that was committed, while more is being written: at the latest after one turn for each full packet queued and then, for a short rest, when 1 ms has passed on the clock, across its 32-bit wrap |
| `UsbCdc.TakingTurn` | src/usb/usb_cdc.cpp:134-185 | One turn with the host taking: a packet more is delivered, or nothing is left to send, or less than a packet is queued and its hold has begun, no later than now |
| `UsbCdc.UsbCdc.constructor` | src/usb/usb_cdc.cpp:38-59 | Nothing in flight |
| `UsbCdc.UsbCdc.HostTakes` | src/usb/usb_cdc.cpp:570-574 | The armed packet is delivered once |
| `UsbCdc.UsbCdc.HostSends` | src/usb/usb_cdc.cpp:589-592 | The host sends only while the endpoint is open |
| `UsbCdc.UsbCdc.HostResets` | src/usb/usb_cdc.cpp:620-624 | A bus reset is pending |
| `UsbCdc.UsbCdc.ArmEp3FromTx` | src/usb/usb_cdc.cpp:190-201 | One packet moves from queue to endpoint buffer, only with nothing in flight |
| `UsbCdc.UsbCdc.BusReset` | src/usb/usb_cdc.cpp:530-544 | Everything is forgotten |
| `UsbCdc.UsbCdc.PushOut` | src/usb/usb_cdc.cpp:589-601 | A received packet always fits whole, and the endpoint closes when the next might not |
| `UsbCdc.UsbCdc.OnIrq` | src/usb/usb_cdc.cpp:549-636 | One pending event is handled, nothing lost |
| `UsbCdc.UsbCdc.Reopen` | src/usb/usb_cdc.cpp:149-154 | It opens again as soon as there is room |
| `UsbCdc.UsbCdc.Coalesce` | src/usb/usb_cdc.cpp:159-184 | A full packet at once; a short one once 1 ms of hold has passed; with nothing in flight afterwards, either nothing is queued or fewer than 64 bytes are and the hold is running, begun no later than now and not 1 ms old; the flag's old value does not matter |
| `UsbCdc.UsbCdc.Tick` | src/usb/usb_cdc.cpp:134-185 | One main-loop step keeps the books and leaves bytes waiting only as `Coalesce` says; an in-flight buffer is never rewritten |
| `UsbCdc.UsbCdc.Pump` | src/usb/usb_cdc.cpp:205-235 | A completed packet is followed by the next full one; the producer's span stays; with no event pending nothing changes |
| `UsbCdc.UsbCdc.Write` | src/usb/usb_cdc.hpp:62 | What fits is committed in order |
| `UsbCdc.UsbCdc.Read` | src/usb/usb_cdc.hpp:57 | The oldest received bytes |
| `UsbCdc.UsbCdc.Reserve` | src/usb/usb_cdc.hpp:65 | A contiguous span |
| `UsbCdc.UsbCdc.CommitSpan` | src/usb/usb_cdc.hpp:66 | Its bytes are committed |
| `UsbCdc.UsbCdc.StageOne` | src/sniffer/clocked_sniffer.cpp:282-285 | A byte in the span |
| `UsbCdc.UsbCdc.Fill` | src/sniffer/clocked_sniffer.cpp:274-288 | A drain with pumps in between commits exactly a prefix, in order, holds nothing up and forgets no hold |

## Left out

- RleSniffer.HostReadsThePin: captures without a loss marker, because a 0xFD is written ahead of bytes still in the RAM ring and does not stand at the hole.
- RleSniffer.Conservation: FIFO overruns are counted but not announced on the wire, because the code announces `ramDrop_` only.
- ClockedSniffer.HostReportsSlices: assumes no FIFO lap, because a record flagged with the FIFO overflow bit may contain the hole.
- DmxEncode.DmxRoundTrip: no run is as long as a boundary mark (2^30 ticks), because it would be one to the decoder; a BREAK, mark or idle line of no bits, which merges its neighbours, is not considered.
- ClockedFlush.Session: runs without a dropped record, because whether a continued chain is still open behind a drop depends on the fill of the staging ring; for single calls `Service` states the decision with drops as well.
- RleToCan.FramesFromThePin: assumes a main loop that was never without a byte for more than 3 ms; that the capture program stores one at least so often is a matter of its clock and is not modelled. The same goes for the DMX results.
- MdioEndToEnd.HostReportsTheRequests: the sniffer's program was restarted between transactions only, because a restart inside one cuts its frame; and only the wire's own clocks were sampled.
- Ring.Ring.constructor: capacities that divide 2^32, by `Ring.OrderSurvivesWrap` the only ones that keep their order across the wrap.
- `ffDecode` as a validator: it accepts some inputs no encoder writes; only encode-then-decode is stated.
- Calibration (`fit_ui`, `_comb_residual`, `calibrate`, `fit_burst_ui`, `bound_from_ui`): searches with no stated guarantee; their result is a hypothesis.
- Rounding of floating-point positions; exact reals are used.
- Extended and remote CAN frames through the whole path (`CanDecode.StandardReported` and `CanDecode.ExtendedReported` start at the stuffed bits); the leading-run retry of `decode_frame_runs`.
- DmxStream.DecodeInverted: streams without boundaries, because with the fallback a boundary anchors the following BREAK at HIGH.
- Queueing of text: replies are values, not formatted lines; LED blinking; console prints.
- DIAG telemetry, throughput counters, data toggles, `ramHi_`, `maxGap_`, `txMinFree_`.
- USB enumeration, control transfers, suspend, and `CLEAR_FEATURE` on the bulk endpoints; host events are handled one at a time, as INT_BUSY makes them.
- Hardware bring-up, blob loading, `stop()`, mode switching and `!mode`; the `[MODE rle]` heartbeat.
- The MDIO_STUB build, and branches no state reaches: the `default` steps of the master, the busy print in `handleLine` after the slot was found free.
- wire=1 framing and onset-to-kHz conversion on the host; the browser page.
- `ClockedSniffer` keeps the contents of its staging ring as a sequence with the ring's capacity (the ring itself is `Ring`), and the co-processor's register file is a sequence of slots.
- The request fields of `Master` are one record; `capRun_` is unbounded.

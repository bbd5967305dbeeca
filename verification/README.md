# Lely CANopen core: a verified model

This project models the protocol engines and codecs of the Lely CANopen library
(`lib/can`, `lib/co`) in Dafny and proves what they do, over every input and in
every run. `dafny verify dfyconfig.toml` checks all of it.

The parts, and the main results about them:

- **LSS Fastscan and Slowscan** (`Lss*.dfy`). A master finds one device among an
  unknown set of slaves, from nothing but "somebody answered" and "timeout".
  Fastscan terminates against any bus, is sound for any mask, and finds the least
  address. With a mask that is not a prefix of the address it may fail although a
  slave matches; it always succeeds exactly for prefix masks. Slowscan halves its
  interval in every round and selects the least revision and serial number in it.
- **CAN frames** (`Gf2`, `Words`, `Crc*`, `*CrcTable`, `BitStuffing`, `CanStuff`,
  `CanFrame`). The table-driven checksums are polynomial division, entry by entry of
  the tables in the source; the five-bit-window counter of stuff bits counts what the
  bit-by-bit rule inserts; `can_msg_bits` is the length of the frame on the bus.
- **The Client-SDO service** (`SdoFrames`, `SdoTransfer`, `SdoMachine`, `SdoClient`,
  `SdoRuns`, `SdoBlockUpload`, `SdoRequest`). The imperative service computes the
  transition functions of `SdoMachine`. One invariant, `Csdo.Valid()`, is kept by every
  operation whatever frames arrive, are lost or time out: each request is confirmed exactly
  once, with the service idle, and a confirmation with code 0 means that the transfer is
  complete. Conversely, downloads of any value end with code 0 and the right bytes against a
  conforming server, block downloads even though segments are lost. Segmented uploads do
  exactly if the server's response carries the value or its size, or the value is empty. For
  block uploads from a server that loses segments and sends them again, it is stated exactly
  which of them succeed.
- **Concise DCFs** (`ConciseDcf`, `Dictionary`). Writing and reading a range of the
  object dictionary is a round trip, and the client's DCF download issues exactly the
  entries of the range.
- **Network interface** (`CanTimers`, `CanReceivers`, `CanBuffer`, `SendPacing`). The
  timer queue fires every timer on its schedule; the receiver index delivers each
  frame once to each matching receiver; paced senders keep their distance, and the order of
  their messages unless the growth of their buffer destroys it.
- **PDOs** (`PdoMapping`, `RpdoConfig`). Packing and unpacking is a round trip, and the
  mapping of a valid PDO cannot be changed.
- **NMT** (`BootMachine`, `NmtBoot`, `BootRuns`, `NmtMaster`). The boot process never
  reports a slave with the wrong identity, software or configuration as booted, in any run,
  unless it is operational and to be kept alive; a slave that answers as
  configured is booted; every request is confirmed exactly once, or has an event to come.
  The master only becomes operational when every mandatory slave has booted, with one
  exception.

Some properties that one would expect turn out not to hold. They are stated with the
exact condition under which they do:

- Fastscan with a mask that has holes can fail although a slave matches
  (`LssFastscanProps.HoleMisleads`, `LssFastscanProps.AlwaysFindsIffPrefix`).
- Growing the ring buffer keeps the queued frames if and only if the queue wraps around,
  or its positions select the same slots in the larger memory
  (`CanBuffer.GrowthIsSafeIff`). A buffer that has been through all its slots and fills
  up without wrapping loses its frames (`CanBuffer.UnsafeRun`). So a request to a paced sender
  keeps the order of its messages, whatever new memory holds, if and only if the buffer has
  room for it, or there is no memory, or the growth is safe (`SendPacing.OrderKeptIff`). After
  sixteen commands that were sent and fifteen that wait, the next one destroys it
  (`SendPacing.OrderLost`).
- An upload of a value that has any bytes, in segments and from a server that does not give
  its size, fails at the first segment (`SdoRuns.UploadIff`), also if it was asked for in blocks
  (`SdoBlockUpload.FallBackIff`).
- A block upload succeeds if and only if the server gives the size, the value is not empty,
  and the last segment of every block, every segment of the block with the end of the value,
  and the end request arrive (`SdoBlockUpload.BlockUploadIff`). A block whose last segment is
  lost is never acknowledged (`SdoBlockUpload.LossAtEndOfBlock`). After the last segment of all,
  the client only takes the end request, even if segments are missing
  (`SdoBlockUpload.LossInLastBlock`). The empty value cannot be uploaded in blocks from this
  library's own server, which sends no segment for it (`SdoBlockUpload.EmptyFails`).
- A block upload from a server that does not give the size can end with code 0 and no bytes:
  the last of 93 segments, when it is sent again, reads as the end request. That happens
  exactly under `SdoBlockUpload.FalseEnd` (`SdoBlockUpload.UnsizedOutcome`), as in
  `SdoBlockUpload.NothingTakenForAll`.
- Aborting a transfer with code 0 is reported as success, but a transfer that can be aborted
  is never complete (`SdoMachine.FalseSuccess`). Runs in which it happens are
  `SdoClient.AbortWithZero` and, for an upload that has not been answered,
  `SdoClient.AbortUploadWithZero`. Such confirmations are marked as `forced` in the model.
- The assertion in the callback of a DCF download that the service is valid fails exactly
  when the SDO parameters become invalid during such a download
  (`SdoClient.Csdo.Update`), as in `SdoClient.InvalidDuringDcf`.
- `co_dev_cfg_rpdo` succeeds exactly if `RpdoConfig.CfgAccepted` (`RpdoConfig.Rpdo.Cfg`). It
  never does when asked for all six sub-objects, and on a valid PDO with a mapping it does not
  when asked for none, because the PDO is not disabled first (`RpdoConfig.CfgRuns`).
- `co_pdo_unmap` copies an entry of more than 64 bits beyond its temporary value exactly if
  the entry lies within the buffer (`PdoMapping.Unmap`), as one of 72 bits does in nine bytes
  (`PdoMapping.LongEntryOverruns`). It cannot in a CAN frame (`PdoMapping.NoOverrun`).
- The boot process leaves its timer running in a state that has no timeout handler, where
  its expiry violates an assertion, exactly when a message of the slave comes after a
  communication reset and the next request is accepted (`BootRuns.UnexpectedTimerIff`). With a
  slave that is to be kept alive and is pre-operational, it does (`BootRuns.UnexpectedRun`).
- The startup of an NMT master makes it operational before all mandatory slaves have
  booted exactly if the boot process of some slave ends at once, as it does for one that is
  not to be booted and has no heartbeat, before there is a mandatory slave to wait for, and
  that of a mandatory slave does not, or cannot be created (`NmtMaster.EarlyStartIff`,
  `NmtMaster.EarlyStart`).

How the source is represented:

- 32-bit LSS numbers and checksum registers are bit sequences, most significant bit first;
  bytes are numbers below 256.
- An LSS request with all its answers is one round: the answers arrive before the next
  request is sent. After the requests of a scan proper the `*_wait` states see to that; the
  first request of each scan (lib/co/lss.c:1890-1900, 2094-2104) is not followed by such a
  state, and there it is an assumption.
- In `SdoClient.Csdo` the fields of `struct co_csdo` that change during a transfer are kept
  in one record, `t`, together with the frames sent and what a server that takes block
  segments in sequence holds. A callback is an entry in `log`, and the result of a memory
  allocation is a parameter.
- A conforming server reads the object, the toggle bits and the acknowledgements from the
  frames of the client, and answers an upload with the value, with its size, or with neither;
  one that is asked for a download acknowledges what it is sent. In a block download it takes the
  segments in sequence, and it need not answer a block whose last segment is lost.
- In `SdoBlockUpload` the server is a value and a position. It sends a block from there,
  the segments in a pattern arrive, and it goes on from what the client's frame
  acknowledges. When nothing arrives any more, the client's timeout ends the transfer; a
  client without a timeout waits for ever.
- The pairing heap, the red-black tree and the linked list of receivers are represented by
  what they hold; for the receivers, the links and the heads in the tree are explicit.
- Times are integers, in nanoseconds or microseconds.
- A PDO buffer is an array of bits in transmission order.
- Sub-objects of the dictionary are represented by their serialised values.

## Model

| member | source | states |
|---|---|---|
| `LssAddress.ValueOrder` | lib/co/lss.c:2118-2212 | the order of 32-bit numbers is decided by the first bit in which they differ |
| `LssSlave.SwitchedIff` | lib/co/lss.c:2257-2300 | in every run, a waiting slave is switched selectively by exactly the request that completes the four numbers of its address in order |
| `LssSlave.IdentifiedIff` | lib/co/lss.c:2303-2364 | in every run, it answers an identification by exactly the request that completes six frames that admit its address |
| `LssSlave.Send` | lib/co/lss.c:1418-1474 | one request reaches every slave of the bus, and is answered if one of them answers |
| `LssFastscan.NextUnknown` | lib/co/lss.c:2118-2157 | the bit to ask for is the next one outside the mask, and everything skipped is in the mask |
| `LssFastscan.ResultLearns` | lib/co/lss.c:2181-2212 | what a round teaches, for any answer: what is known stays, and exactly the bit asked for becomes known |
| `LssFastscan.ResultDecreases` | lib/co/lss.c:2181-2212 | every answer and every timeout brings the scan strictly closer to its end |
| `LssFastscan.FastscanTerminates` | lib/co/lss.c:2094-2232 | for any id, mask and pattern of answers and timeouts, the scan is over after 1 + 4 * 33 requests |
| `LssFastscan.BitRound` | lib/co/lss.c:2388-2424 | in a round on an unknown bit somebody answers if and only if that bit of the wanted address is 0, and no slave changes |
| `LssFastscan.ConfirmSlave` | lib/co/lss.c:2388-2424 | on a confirming request exactly the slaves that agree so far answer and move on; after the last one they switch |
| `LssFastscan.FastscanOutcome` | lib/co/lss.c:2094-2232 | the result of a whole run on any bus: it succeeds exactly if the greedy address is the address of a waiting slave, and then exactly those slaves are switched |
| `LssFastscanProps.FastscanSound` | lib/co/lss.c:2118-2232 | for any id, mask and slaves: success means that the reported address agrees with the id on every masked bit and is the address of every slave that switched, of which there is at least one; at most 133 requests |
| `LssFastscanProps.FastscanFindsLeast` | lib/co/lss.c:1276-1319 | with a prefix mask and a matching slave the scan succeeds and reports the least matching address |
| `LssFastscanProps.FastscanUnmasked` | lib/co/lss.c:1276-1319 | without a mask, for any non-empty set of waiting slaves with distinct addresses, the one with the least address, and no other, is switched |
| `LssFastscanProps.HoleMisleads` | lib/co/lss.c:2118-2212 | for every mask with a hole there are slaves, one of them matching, on which the scan fails |
| `LssFastscanProps.AlwaysFindsIffPrefix` | lib/co/lss.c:1276-1319 | the scan finds a matching slave on every bus that has one, if and only if the mask is a prefix |
| `LssFastscanMaster.Master.ScanOnEnter` | lib/co/lss.c:2118-2157 | the loop over known bits, in place, reaches the next unknown bit |
| `LssFastscanMaster.Master.ScanOnRes` | lib/co/lss.c:2181-2212 | the end of a round: what is known stays; exactly the bit asked for becomes known, 0 if somebody answered; a complete number leads on if confirmed, and to failure if not; the scan comes closer to its end |
| `LssFastscanMaster.Master.Fastscan` | lib/co/lss.c:1276-1319 | the imperative master, run against the slaves, computes the outcome that the theorems are about, in the same number of rounds |
| `LssSlowscan.IdentifyAnswersBox` | lib/co/lss.c:2303-2364 | the six identify frames are answered if and only if a slave lies in the box of vendor, product, revision and serial number; no slave is switched |
| `LssSlowscan.SwitchFromSwitches` | lib/co/lss.c:2257-2300 | the four switch frames switch exactly the slave with that address |
| `LssSlowscanRun.LeastExists` | lib/co/lss.c:1880-2090 | a box with a slave in it has a slave with the least revision and serial number |
| `LssSlowscanRun.LeastUnique` | lib/co/lss.c:1880-2090 | and its address is the only one |
| `LssSlowscanRun.NarrowKeepsLeast` | lib/co/lss.c:1977-2006 | whatever the answer, the least slave of the box is the least slave of the narrowed box |
| `LssSlowscanRun.NarrowHalves` | lib/co/lss.c:1977-2006 | every round at least halves the active interval and keeps the bounds ordered, as the request asserts |
| `LssSlowscanRun.ScanFindsLeast` | lib/co/lss.c:1924-2026 | the bisection ends at the slave with the least revision and serial number |
| `LssSlowscanRun.ScanWithin65` | lib/co/lss.c:1924-2026 | on any bus, answering or not, the bisection is over within 65 rounds |
| `LssSlowscanRun.SlowscanNobody` | lib/co/lss.c:1880-1921 | without a slave in range nobody is switched and nothing is scanned |
| `LssSlowscanRun.SlowscanLeast` | lib/co/lss.c:1880-2090 | with a slave in range, the least of them is selected, and no other |
| `LssSlowscanRun.NarrowPartitions` | lib/co/lss.c:1977-2006 | the bounds after a round, which `UpdateBounds` of the master sets, hold exactly the addresses that the answer leaves possible |
| `LssSlowscanMaster.Master.Identify` | lib/co/lss.c:2484-2540 | sending the identify frames to the slaves, in place, with the asserted order of the bounds |
| `LssSlowscanMaster.Master.Slowscan` | lib/co/lss.c:1240-1274 | the imperative master, run against the slaves, computes the outcome that the theorems are about |
| `Gf2.SerialIsRemainder` | lib/can/msg.c:279-391 | the register of a bit-serial CRC is the remainder of a polynomial division: the input, shifted, and the register differ by a multiple of the generator |
| `Gf2.ResidueIsZero` | lib/can/msg.c:279-391 | a message followed by its checksum leaves the register empty |
| `Gf2.SerialConcat` | lib/co/crc.c:27-87 | a CRC over a concatenation is the CRC of the second part, started from that of the first |
| `CrcTable.TableStep` | lib/co/crc.c:82-86 | a table lookup processes one byte like eight bit steps, for any generator |
| `CoCrcTable.Lookup` | lib/co/crc.c:46-79 | each of the 256 words of the table is the register of the bit-serial checksum after its index |
| `CanCrcTable.Lookup` | lib/can/msg.c:347-380 | likewise for the table of CRC-15 |
| `Crc.CoCrc` | lib/co/crc.c:27-87 | the table-driven CRC-16 is the bit-serial one, for every start value and input |
| `Crc.CanCrcBits` | lib/can/msg.c:310-324 | some bits of a byte, from any offset, are processed bit by bit |
| `Crc.CanCrcBytes` | lib/can/msg.c:326-391 | whole bytes are processed like their bits |
| `Crc.CanCrc` | lib/can/msg.c:279-308 | for any bit offset (negative ones included) and length, CRC-15 is the bit-serial one over exactly those bits |
| `BitStuffing.InsertedIsLength` | lib/can/msg.c:148-176 | the number of stuff bits is what stuffing adds to the length |
| `BitStuffing.DestuffStuff` | lib/can/msg.c:148-176 | removing the stuff bits restores the frame |
| `BitStuffing.StuffedHasNoSix` | lib/can/msg.c:148-176 | a stuffed frame never has six equal bits in a row |
| `BitStuffing.InsertedBound` | lib/can/msg.c:71-76 | at most one stuff bit for every four bits after the first |
| `CanFrame.BaseHeaderFields` | lib/can/msg.c:114-138 | what the header of a standard frame holds: the lowest eleven bits of the identifier, the remote request bit and the length, each in its place |
| `CanFrame.ExtendedHeaderFields` | lib/can/msg.c:86-112 | likewise for an extended frame, with 29 bits of the identifier around the bits that mark it as extended |
| `CanStuff.CountStuff` | lib/can/msg.c:148-176 | the five-bit-window loop terminates, stays within the buffer and counts exactly the stuff bits of the bit-by-bit rule |
| `CanFrame.LayoutBits` | lib/can/msg.c:81-146 | the bytes put together for the count hold the frame, from start of frame through checksum, at the given offset, and zeros behind it |
| `CanFrame.Pack` | lib/can/msg.c:81-140 | header and payload are stored at the start of a zeroed buffer |
| `CanFrame.ExactBits` | lib/can/msg.c:81-182 | the exact mode is the length of the stuffed frame with its trailer |
| `CanFrame.MsgBits` | lib/can/msg.c:47-182 | -1 exactly for CAN FD frames, more than 8 bytes or an unknown mode; otherwise the length without, with at most, or with exactly the stuff bits |
| `CanFrame.ModesAreOrdered` | lib/can/msg.c:64-76 | the exact length of every classic frame lies between the two estimates |
| `SdoFrames.SegmentFields` | lib/co/csdo.c:2320-2343 | toggle bits alternate, exactly the last segment is marked as last, and each carries its part of the value |
| `SdoFrames.SegmentedDownloadCarries` | lib/co/csdo.c:1595-1613 | a server that checks toggle bits and the mark of the last segment puts the segments of a value of any length together to the value |
| `SdoFrames.ExpeditedReads` | lib/co/csdo.c:2285-2300 | from an expedited frame a server reads the index, the sub-index, and all bytes of the value |
| `SdoFrames.SegmentedReads` | lib/co/csdo.c:2302-2343 | from the initiate frame and the segments it reads the index, the sub-index, the size and the value |
| `SdoFrames.EndFields` | lib/co/csdo.c:2406-2426 | from the end request of a block download it reads the number of bytes in the last segment, and the checksum |
| `SdoFrames.ChecksumOfNothing` | lib/co/csdo.c:2418-2419 | the checksum of the end request starts from 0 |
| `SdoFrames.LossyBlock` | lib/co/csdo.c:1904-1948 | whatever a block loses, a server that takes segments in sequence holds the bytes before the first lost one and acknowledges that many |
| `SdoTransfer.RewoundIsAfter` | lib/co/csdo.c:1928-1938 | the cursor after an acknowledgement is min(size, block start + 7 * min(ackseq, blksize)), is the size or a multiple of 7, and the asserted bound holds |
| `SdoTransfer.ServedIsPrefix` | lib/co/csdo.c:1928-1938 | what a server that acknowledged so many segments holds is the value up to the cursor |
| `SdoTransfer.SegmentStep` | lib/co/csdo.c:2320-2343 | sending the next segment extends the frames of the download by the right one |
| `SdoTransfer.ConfirmedOnce` | lib/co/csdo.c:1523-1548 | in every log, each token is confirmed as often as it was accepted, but for a request in progress |
| `SdoTransfer.DownloadDelivers` | lib/co/csdo.c:1595-1613 | from the frames of a download that counts as complete a server reads the value, for the object that was asked for |
| `SdoTransfer.UpRequestFields` | lib/co/csdo.c:2345-2355 | from the first frame of an upload, in segments or blocks, a server reads the command and the object, and for blocks their size |
| `SdoTransfer.BlkDownRequestFields` | lib/co/csdo.c:2370-2382 | from that of a block download it reads the command, the object and the size of the value |
| `SdoMachine.RecvKeeps` | lib/co/csdo.c:1564-2187 | every handler, on any frame, leads to a state whose entry condition holds, in the same request |
| `SdoMachine.AcknowledgeKeeps` | lib/co/csdo.c:1928-1938 | after any acknowledgement the cursor is at what a server that took that many segments holds, and is the size or a multiple of 7 |
| `SdoMachine.BlkUpSubKeeps` | lib/co/csdo.c:2082-2127 | any frame in a block upload keeps the bytes within the announced size and the sequence number within the block |
| `SdoMachine.BlkUpEndKeeps` | lib/co/csdo.c:2143-2187 | a block upload only ends with code 0 if length, count of the last segment and, if negotiated, checksum match |
| `SdoMachine.TogglesAgree` | lib/co/csdo.c:1629-1654 | the toggle bit that is accepted is that of the segment sent last |
| `SdoMachine.AskKeeps` | lib/co/csdo.c:2357-2367 | the requests for the segments of an upload have toggle bits that alternate, starting with 0 |
| `SdoMachine.AbortReads` | lib/co/csdo.c:2274-2283 | the code that is read from an abort frame is the one it was made with; without one it is a general error |
| `SdoMachine.FalseSuccess` | lib/co/csdo.c:1119-1125 | a transfer that is aborted with code 0, in whatever state, is not complete |
| `SdoMachine.BlockGoesOn` | lib/co/csdo.c:1863-1888 | between blocks the next block is sent, or, exactly at the end of the value, the end request |
| `SdoMachine.SettleKeeps` | lib/co/csdo.c:1429-1444 | entering a state, and those it leads to, ends in a state whose condition holds, or idle with a truthful result |
| `SdoMachine.StepKeeps` | lib/co/csdo.c:1429-1474 | any frame in any transfer: the condition of the state, the same request, and a truthful result if it ends |
| `SdoClient.Csdo.Enter` | lib/co/csdo.c:1429-1444 | the chain of entry functions ends, from any state, in the state `Settle`, and restores the invariant of the service |
| `SdoClient.Csdo.AbortOnLeave` | lib/co/csdo.c:1523-1548 | leaving the abort state confirms the request once, with the service idle and the transfer as it ended, or goes on with a DCF, or confirms that |
| `SdoClient.Csdo.DnIniOnRecv` | lib/co/csdo.c:1564-1593 | the first response of a download is accepted exactly if command and object match; otherwise it ends with an error, which the server is told unless it aborted itself |
| `SdoClient.Csdo.DnSegOnEnter` | lib/co/csdo.c:1595-1613 | sends the next segment, or completes when all have been sent, the empty value included |
| `SdoClient.Csdo.DnSegOnRecv` | lib/co/csdo.c:1629-1654 | a segment response is accepted exactly if command and toggle bit match; otherwise likewise |
| `SdoClient.Csdo.UpIniOnRecv` | lib/co/csdo.c:1670-1735 | a response that does not name the object ends the upload with an error; one that does completes it exactly if it is expedited, and starts segments exactly if not, as far as there is memory |
| `SdoClient.Csdo.UpStart` | lib/co/csdo.c:1699-1734 | an expedited value is completed at once, with the announced number of bytes of the frame; segments start with nothing received, the announced size, and a request with the toggle bit 0; without memory it fails |
| `SdoClient.Csdo.UpSegOnRecv` | lib/co/csdo.c:1751-1804 | computes `OnUpSeg`: a repeated toggle bit changes nothing; the upload only ends at the last segment |
| `SdoClient.Csdo.UpSegment` | lib/co/csdo.c:1779-1803 | the bytes of a segment are appended unless they exceed the announced size; it completes the upload exactly if it is the last and reaches that size; otherwise the next one is asked for, with the other toggle bit |
| `SdoClient.Csdo.BlkDnIniOnRecv` | lib/co/csdo.c:1820-1861 | the response to a block download is accepted exactly if it is complete and names the object; block size and checksum flag are taken from it, the cursor stays at the start |
| `SdoClient.Csdo.SendBlock` | lib/co/csdo.c:1881-1884 | all segments of the block that starts at the cursor are sent, in sequence |
| `SdoClient.Csdo.BlkDnSubOnEnter` | lib/co/csdo.c:1863-1888 | the end request, with the right checksum, is sent exactly when the cursor has reached the size |
| `SdoClient.Csdo.BlkDnSubOnRecv` | lib/co/csdo.c:1904-1948 | computes `OnBlkDnSub`: after any acknowledgement the cursor is where the server is |
| `SdoClient.Csdo.BlkDnEndOnRecv` | lib/co/csdo.c:1964-1989 | exactly the end response completes the download, with the server holding the whole value |
| `SdoClient.Csdo.BlkUpIniOnRecv` | lib/co/csdo.c:2005-2066 | a block upload starts exactly if the response is one and names the object, with the announced size and checksum flag; a response to a segmented upload falls back to that |
| `SdoClient.Csdo.BlkUpSubOnRecv` | lib/co/csdo.c:2082-2127 | computes `OnBlkUpSub`: only the next segment in sequence is taken; a segment marked as last ends the blocks even if others are missing |
| `SdoClient.Csdo.BlkUpEndOnRecv` | lib/co/csdo.c:2143-2187 | computes `OnBlkUpEnd`: code 0 exactly if length, count of the last segment and, if negotiated, checksum match |
| `SdoClient.Csdo.DnInd` | lib/co/csdo.c:2205-2238 | a download is accepted exactly if the service is valid and idle, and then starts from nothing, with its callback kept and the acceptance recorded |
| `SdoClient.Csdo.UpInd` | lib/co/csdo.c:2240-2272 | likewise for an upload |
| `SdoClient.Csdo.DnReq` | lib/co/csdo.c:1127-1147 | an accepted download starts with an expedited or an initiate frame for the whole value, with the timer armed exactly if there is a timeout; it is recorded and its callback kept |
| `SdoClient.Csdo.UpReq` | lib/co/csdo.c:1203-1220 | an accepted upload starts with its request, and nothing received; it is recorded and its callback kept |
| `SdoClient.Csdo.BlkDnReq` | lib/co/csdo.c:1222-1239 | an accepted block download starts with its initiate frame; it is recorded and its callback kept |
| `SdoClient.Csdo.BlkUpReq` | lib/co/csdo.c:1265-1286 | an accepted block upload starts with its initiate frame, and nothing received; it is recorded and its callback kept |
| `SdoClient.Csdo.DnDcfReq` | lib/co/csdo.c:1174-1201 | a DCF download is accepted exactly if the service is valid and idle, and recorded; it goes on with its callback kept exactly if there is an entry, and is otherwise confirmed at once, with the code and object of the fault |
| `SdoClient.Csdo.DcfDnCon` | lib/co/csdo.c:2529-2583 | entries are issued in order up to the first failure; code 0 means that all were issued and succeeded; the user hears of it once, with the index and sub-index of the last entry or of the one that is cut short |
| `SdoClient.Csdo.Recv` | lib/co/csdo.c:1400-1474 | any frame in any state finds a handler, computes `Step`, confirms the request exactly if that ends it, and keeps the invariant: exactly one, truthful confirmation for each request, in every run |
| `SdoClient.Csdo.Time` | lib/co/csdo.c:1456-1464 | the timer only runs during transfers, so a timeout finds a handler, ends the transfer and confirms it |
| `SdoClient.Csdo.AbortReq` | lib/co/csdo.c:1119-1125 | ends a transfer, if there is one, and confirms it with the given code; code 0 is marked as forced |
| `SdoClient.Csdo.Update` | lib/co/csdo.c:1288-1311 | aborts a transfer and listens exactly if valid; says exactly when the asserted validity of the DCF callback is violated |
| `SdoClient.Csdo.Start` | lib/co/csdo.c:942-967 | starting keeps the invariant, and does nothing on a running service |
| `SdoClient.Csdo.Stop` | lib/co/csdo.c:969-992 | stopping confirms a pending request and stops timer and receiver |
| `SdoClient.Csdo.SetTimeout` | lib/co/csdo.c:1050-1059 | the timeout, cut at 0; a timer is stopped exactly when there was a timeout and there is none now |
| `SdoClient.AbortWithZero` | lib/co/csdo.c:1119-1125 | a download that is aborted with code 0 and reported as successful, although it is not complete |
| `SdoClient.AbortUploadWithZero` | lib/co/csdo.c:1119-1125 | an upload that is aborted with code 0 before any answer and reported as successful |
| `SdoClient.InvalidDuringDcf` | lib/co/csdo.c:1288-1311 | a DCF download during which the parameters become invalid, so that the assertion of its callback is violated |
| `SdoRuns.AnyRun` | lib/co/csdo.c:1429-1474 | whatever frames, timeouts and abort requests there are, with or without memory: the same request all along, with frames only added to those sent, and code 0 only for a complete transfer (for an upload: all bytes that were announced, requested with the right frames, and the last segment or a matching end request) or after an abort with code 0 |
| `SdoRuns.DownloadCompletes` | lib/co/csdo.c:1564-1654 | a download of any value, expedited, empty or segmented, ends with code 0 after the answers of a conforming server, which reads the value and the object from its frames |
| `SdoRuns.UploadIff` | lib/co/csdo.c:1670-1804 | an upload from a server that reads the object and the toggle bits from the requests, in which segments may arrive more than once, ends with code 0 exactly if the response carries the value or its size or the value is empty, and then with the value of that object |
| `SdoRuns.BlockDownloadBegins` | lib/co/csdo.c:1820-1861 | the response of a conforming server starts the first block |
| `SdoRuns.LossyDownload` | lib/co/csdo.c:1863-1948 | for any loss of segments, block after block: the server holds the bytes before the current block, each block of which the first segment arrives takes the download at least seven bytes further, and it is given up only at a block that is not answered |
| `SdoRuns.LossyDownloadEnds` | lib/co/csdo.c:1863-1948 | so if all blocks are answered, once the first segments of enough of them have arrived, the server holds the value and the end request is out |
| `SdoRuns.BlockDownloadEnds` | lib/co/csdo.c:1964-1989 | the end response completes the download with code 0 |
| `SdoRuns.BlockDownloadReads` | lib/co/csdo.c:2406-2426 | the end request that was sent before has the number of bytes of the last segment and the checksum of the value |
| `SdoRuns.BlockDownloadCompletes` | lib/co/csdo.c:1820-1989 | a whole block download of any value, for any losses of that kind, ends with code 0 and the value on the server, and starts with the frame that names the object |
| `SdoBlockUpload.BlockSoFar` | lib/co/csdo.c:2082-2127 | for any loss within a block, the client has taken the segments before the first that was lost, and acknowledges them exactly if the last segment of the block arrives |
| `SdoBlockUpload.RoundKeeps` | lib/co/csdo.c:2082-2127 | after each acknowledged block the server's position is the number of bytes received, which are a prefix of the value |
| `SdoBlockUpload.UploadOutcome` | lib/co/csdo.c:2082-2187 | if the server gives the size: for every list of losses, the bytes are a prefix of the value, and the upload ends with code 0, and the value, if and only if enough arrives |
| `SdoBlockUpload.UnsizedOutcome` | lib/co/csdo.c:2082-2187 | if it does not: for every list of losses no byte is taken, and code 0 is reported exactly if the last of 93 segments is taken for the end request |
| `SdoBlockUpload.BlockUploadIff` | lib/co/csdo.c:2005-2187 | from a server that reads the object and the block size from the request, waits for the start and reads the acknowledgements, whether it gives the size or not: code 0 and the value exactly if it does, the value is not empty, and the last segment of each block, all of the block with the end of the value, and the end request arrive; code 0 without the value exactly in that other case |
| `SdoBlockUpload.BlockUploadCompletes` | lib/co/csdo.c:2005-2187 | without losses every non-empty value of which the server gives the size is uploaded, with or without checksum |
| `SdoBlockUpload.EarlyLossIsRepaired` | lib/co/csdo.c:2082-2127 | any losses in any block but the last are made good, if only its last segment arrives |
| `SdoBlockUpload.LossInLastBlock` | lib/co/csdo.c:2082-2187 | losing any segment of the last block, wherever it starts, makes the upload fail |
| `SdoBlockUpload.LossAtEndOfBlock` | lib/co/csdo.c:2082-2127 | losing the last segment of any block makes it fail |
| `SdoBlockUpload.EmptyFails` | lib/co/csdo.c:2082-2187 | the end request that a server sends for an empty value is taken for a segment, and the upload fails |
| `SdoBlockUpload.NothingTakenForAll` | lib/co/csdo.c:2082-2187 | 651 bytes without size and checksum of which only the last segment arrives, twice: code 0, and nothing received |
| `SdoBlockUpload.FallBackIff` | lib/co/csdo.c:2005-2066 | a block upload that the server answers with segments ends as the segmented upload does, for the object that was asked for |
| `SdoRequest.Membuf.DnBuf` | lib/co/sdo.c:351-412 | a segment is appended at its offset, which may lie before the position but not behind it; a refused segment leaves the buffer as it was |
| `SdoRequest.Feed` | lib/co/sdo.c:351-412 | any sequence of segments without gaps, with parts sent again, is accepted, and each last segment yields the value |
| `SdoRequest.DownloadEndToEnd` | lib/co/sdo.c:351-412 | the client's segments, fed to the server's buffer, yield the value at the last one and not before, for every length |
| `ConciseDcf.EntryReadsBack` | lib/co/dev.c:602-684 | an entry that was written is read back, and the rest follows it |
| `ConciseDcf.EntryLayout` | lib/co/dev.c:651-684 | an entry, byte by byte: index, sub-index and size, the lowest byte first, and the value |
| `ConciseDcf.ParseBody` | lib/co/dev.c:687-728 | entries that were written are read back in order, and reading stops where they end |
| `Dictionary.EntriesIff` | lib/co/dev.c:752-792 | the entries of a range are those of the sub-objects with an index from the first to the last, both included |
| `Dictionary.RangeRestored` | lib/co/dev.c:602-728 | storing the entries of a range in a dictionary of the same shape restores the range and changes nothing else |
| `Dictionary.Dev.WriteDcf` | lib/co/dev.c:752-792 | the sizing pass and the writing pass agree, and the bytes are the concise DCF of the range |
| `Dictionary.Dev.WriteSub` | lib/co/dev.c:651-684 | an entry is written if it fits, and its size is returned in any case |
| `Dictionary.Dev.ReadDcf` | lib/co/dev.c:687-728 | the entries before the first that is cut short are stored; the number of bytes used, or 0; the range of indices |
| `Dictionary.CopyRange` | lib/co/dev.c:687-792 | sizing, writing and reading back: all bytes are used, the range is restored, the rest is unchanged |
| `Dictionary.DownloadsRange` | lib/co/csdo.c:2529-2583 | a successful DCF download of a range has issued exactly its entries, in order; an error is that of the last entry issued |
| `CanTimers.Net.First` | lib/can/net.c:223-228 | the front of the queue is an armed timer with the least start time |
| `CanTimers.Net.SetTime` | lib/can/net.c:211-253 | every timer fires exactly on its schedule, in order of the due times; afterwards every armed timer is later than now; the result tells whether a callback failed |
| `CanTimers.ScheduleMeans` | lib/can/net.c:211-253 | a due one-shot timer fires once and stops; a periodic one fires floor((now - start) / interval) + 1 times, at the multiples of its interval |
| `CanTimers.Net.Start` | lib/can/net.c:403-432 | a timer is armed with a start time, or one interval from now |
| `CanTimers.Net.Stop` | lib/can/net.c:434-448 | a stopped timer is not armed, and no other is changed |
| `CanTimers.Net.Timeout` | lib/can/net.c:450-462 | a one-shot timer in milliseconds; a negative timeout stops it |
| `CanReceivers.KeyIsInjective` | lib/can/net.c:586-591 | keys are equal exactly if the flags are, and the lowest 29 or eleven bits of the identifiers, by the flag for extended ones |
| `CanReceivers.AddIndexed` | lib/can/net.c:525-545 | a receiver joins the list of its key behind the head, or starts one, and the index stays consistent |
| `CanReceivers.RemoveIndexed` | lib/can/net.c:547-569 | a receiver leaves its list; if it was the head, its successor takes over the tree node |
| `CanReceivers.Net.Start` | lib/can/net.c:525-545 | starting a receiver for an identifier and flags, also one that is already started, keeps the index and all other receivers |
| `CanReceivers.Net.Stop` | lib/can/net.c:547-569 | stopping a receiver keeps the index and all other receivers |
| `CanReceivers.Net.Deliver` | lib/can/net.c:276-304 | a frame is delivered exactly once to exactly the started receivers whose flags, and 29 or eleven bits of the identifier, are equal, and an error is returned exactly if one of their callbacks fails |
| `CanBuffer.Buf.Write` | include/lely/can/buf.h:245-264 | a frame is appended to the queue, in the slot of the end position, exactly if there is room |
| `CanBuffer.Buf.Read` | include/lely/can/buf.h:223-243 | the oldest frame is taken off the queue |
| `CanBuffer.Buf.Capacity` | include/lely/can/buf.h:194-201 | the room left is the size without what is queued |
| `CanBuffer.WrappedGrowth` | lib/can/buf.c:78-92 | moving the wrapped part to the end of the larger memory keeps the queue |
| `CanBuffer.GrowthIsSafeIff` | lib/can/buf.c:52-98 | growth keeps the queue, whatever the new memory holds, if and only if the queue wraps or its positions select the same slots |
| `CanBuffer.Buf.Reserve` | lib/can/buf.c:52-98 | the memory is large enough for what is queued and asked for, and holds the old slots, a wrapped part moved to its end, and what the allocator left; safe growth keeps the queue and yields the capacity; failure changes nothing |
| `CanBuffer.AppendIff` | lib/can/buf.c:52-98 | appending a frame keeps those that wait, whatever new memory holds, exactly if there is room, or no memory, or the growth is safe |
| `CanBuffer.UnsafeRun` | lib/can/buf.c:52-98 | sixteen frames written and read, then fifteen written, make the next growth unsafe |
| `SendPacing.Sender.CsTimer` | lib/co/nmt.c:2682-2736 | exactly the messages that are due are sent, first ones first, at least the inhibit time apart, and the rest waits for the timer; what was sent followed by what waits does not change; an error exactly if the network refuses a message that is due |
| `SendPacing.Sender.CsReq` | lib/co/nmt.c:1447-1461 | a command is queued behind the others, and sent when the inhibit time allows; the order is kept if the buffer keeps its frames |
| `SendPacing.Sender.EmcyFlush` | lib/co/emcy.c:784-808 | likewise for emergency messages, whatever the network does |
| `SendPacing.Sender.EmcySend` | lib/co/emcy.c:740-781 | without a valid COB-ID nothing happens; otherwise an emergency message is queued behind the others, or refused, and the order is kept if the buffer keeps its frames |
| `SendPacing.OrderKeptIff` | lib/co/nmt.c:1447-1461 | over the positions and the size of the buffer before a request: it keeps the order, whatever new memory holds, exactly if there is room, or no memory, or the growth is safe |
| `SendPacing.OrderLost` | lib/co/nmt.c:1447-1461 | a run in which sixteen commands are sent, fifteen wait, and another one replaces those by what new memory holds |
| `PdoMapping.RoundTrip` | lib/co/pdo.c:195-261 | unpacking what was packed returns every value modulo 2^len, and leaves the values of empty entries alone |
| `PdoMapping.PackedBit` | lib/co/pdo.c:195-227 | each bit of each value is at its place in the frame, the least significant first |
| `PdoMapping.PackedBeyond` | lib/co/pdo.c:195-227 | bits beyond the mapped ones are not touched |
| `PdoMapping.Map` | lib/co/pdo.c:195-227 | exactly the mappings of at most 64 bits and 64 entries are packed, into ceil(total / 8) bytes |
| `PdoMapping.Unmap` | lib/co/pdo.c:229-261 | exactly the mappings that fit in the buffer are unpacked, each value from its place; says exactly when an entry overruns the temporary value |
| `PdoMapping.NoOverrun` | lib/co/pdo.c:229-261 | no entry does so in the eight bytes of a frame |
| `PdoMapping.LongEntryOverruns` | lib/co/pdo.c:229-261 | an entry of 72 bits in nine bytes does |
| `RpdoConfig.ActivationMeans` | lib/co/rpdo.c:611-631 | the loop accepts entries exactly if they total at most 64 bits and each may be mapped |
| `RpdoConfig.CobidBits` | lib/co/rpdo.c:424-444 | a COB-ID by its bits: whether it is valid, and the identifier of 29 or eleven bits that its receiver is started with |
| `RpdoConfig.CobidAcceptedBits` | lib/co/rpdo.c:497-527 | exactly which COB-IDs may replace another, by their bits |
| `RpdoConfig.EntryBits` | lib/co/rpdo.c:611-631 | a mapping entry by its bits: index, sub-index and length |
| `RpdoConfig.Rpdo.DnCobid` | lib/co/rpdo.c:497-527 | a COB-ID is accepted exactly if it does not change the CAN-ID of a valid PDO and is well-formed; the receiver follows it |
| `RpdoConfig.Rpdo.Dn1400` | lib/co/rpdo.c:475-576 | record and service agree after any download, and each sub-object is accepted exactly under its condition and changes only itself; the event timer is restarted exactly by a change of COB-ID or event time; a refused download changes nothing |
| `RpdoConfig.Rpdo.DnCount` | lib/co/rpdo.c:600-631 | entries become active exactly if the PDO is invalid and they are usable together |
| `RpdoConfig.Rpdo.DnEntry` | lib/co/rpdo.c:632-654 | an entry only changes while the PDO is invalid and nothing is mapped |
| `RpdoConfig.Rpdo.Dn1600` | lib/co/rpdo.c:578-659 | record and service agree after any download; while the PDO is valid the mapping does not change, while entries are active none of them does |
| `RpdoConfig.Rpdo.CfgComm` | lib/co/pdo.c:366-430 | succeeds exactly if `CommAccepted`, and then the sub-objects asked for are as requested and the others as before |
| `RpdoConfig.Rpdo.CfgMap` | lib/co/pdo.c:432-468 | succeeds exactly if the PDO is invalid and the entries are usable, or nothing is mapped before or after; on success the mapping is as requested; a valid PDO keeps its mapping |
| `RpdoConfig.Rpdo.Cfg` | lib/co/pdo.c:74-98 | disable, configure, enable: succeeds exactly if `CfgAccepted`, and then both records are as requested; a failure leaves the PDO disabled, if it can be |
| `RpdoConfig.CfgRuns` | lib/co/pdo.c:74-98 | on a valid PDO with a mapping, requests for six and for no sub-objects fail and one for five succeeds |
| `BootMachine.UpIdentityKeeps` | lib/co/nmt_boot.c:1144-1341 | device type, vendor, product, revision and serial number are passed only if not required or matched; at most four requests for the device type |
| `BootMachine.UploadedKeeps` | lib/co/nmt_boot.c:1006-1014 | the result of an upload finds a handler; software, flash and configuration checks keep the identity checks, until the attempt starts over |
| `BootMachine.DownloadedKeeps` | lib/co/nmt_boot.c:1537-1727 | the steps of the program update, each requested at most four times |
| `BootMachine.AtAbortKeeps` | lib/co/nmt_boot.c:1068-1110 | an attempt that ends without an answer is repeated while there is time; otherwise it may be confirmed |
| `BootMachine.EnteredDescends` | lib/co/nmt_boot.c:960-973 | the chain of states that are entered one after the other ends |
| `BootMachine.SettleKeeps` | lib/co/nmt_boot.c:960-973 | where it ends the invariant holds, every confirmation with status 0 or L after all required checks of that attempt, of identity, software and configuration |
| `BootMachine.StepKeeps` | lib/co/nmt_boot.c:960-1025 | every event keeps the invariant, finds a handler, and leaves an event to come while a request is not confirmed; in each state the error status is the letter of that step |
| `NmtBoot.Boot.Again` | lib/co/nmt_boot.c:1144-1161 | each repetition of a request is counted against the retries, so that requests and retries left add up; a final result makes no request |
| `NmtBoot.Boot.EnterChkType` | lib/co/nmt_boot.c:1128-1142 | a new attempt, also after a program update, starts with nothing checked and at most one request |
| `NmtBoot.Boot.EnterChkId` | lib/co/nmt_boot.c:1179-1321 | a check is skipped exactly if nothing is expected; otherwise the attempt fails if it ends here |
| `NmtBoot.Boot.EnterAbort` | lib/co/nmt_boot.c:1068-1110 | a retry is due exactly after error B while there is time; whether the slave counts as booted does not change, and L is only for a slave that is operational |
| `NmtBoot.Boot.Enter` | lib/co/nmt_boot.c:960-973 | the loop over the states, with the confirmation on leaving the error state, computes `Settle` |
| `NmtBoot.Boot.IdOnUpCon` | lib/co/nmt_boot.c:1144-1341 | a check is passed exactly if the answer is as expected, or nothing is expected of the device type; only that check is marked, and only on a match |
| `NmtBoot.Boot.SwOnUpCon` | lib/co/nmt_boot.c:1485-1523 | the software check is passed exactly if the version matches; otherwise there is an update exactly if it is allowed and the slave is not to be kept alive; the identity checks stay |
| `NmtBoot.Boot.DateOnUpCon` | lib/co/nmt_boot.c:1995-2027 | the time is asked for exactly if the date matches, and the configuration updated exactly if a final answer does not |
| `NmtBoot.Boot.OnUpCon` | lib/co/nmt_boot.c:1563-2055 | the program is stopped exactly if it is not stopped already, the flash status is asked for again exactly if it is not valid, the new program is started exactly if its version is as expected, and the configuration is updated exactly if the time is not |
| `NmtBoot.Boot.OnRecv` | lib/co/nmt_boot.c:1377-1453 | a slave that is operational skips software and configuration, any other is reset; boot-up messages are not heartbeats |
| `NmtBoot.Boot.OnDnCon` | lib/co/nmt_boot.c:1537-1727 | the program counts as loaded exactly if a download succeeds; a block download that finally fails, and only that, falls back to segments; the identity checks stay |
| `NmtBoot.Boot.BootReq` | lib/co/nmt_boot.c:862-880 | a request is accepted exactly if the process is in its waiting state, and then starts an attempt and keeps the invariant |
| `NmtBoot.Boot.Time` | lib/co/nmt_boot.c:986-993 | a timeout is expected exactly in the states with a handler, and then computes `Step`; the invariant is kept |
| `NmtBoot.Boot.Recv` | lib/co/nmt_boot.c:976-984 | likewise for a message of the slave |
| `NmtBoot.Boot.UpCon` | lib/co/nmt_boot.c:1006-1014 | likewise for the result of an upload |
| `NmtBoot.Boot.DnCon` | lib/co/nmt_boot.c:996-1003 | likewise for the result of a download |
| `NmtBoot.Boot.CfgCon` | lib/co/nmt_boot.c:2067-2086 | likewise for the result of the configuration |
| `BootRuns.AnyRun` | lib/co/nmt_boot.c:960-1025 | in every run all confirmations are truthful (success only after the checks of identity, software and configuration in that attempt, or for a slave kept alive), each accepted request is confirmed exactly once or has an event to come, and at most four requests are made in a repeated phase |
| `BootRuns.ImpostorIsNeverBooted` | lib/co/nmt_boot.c:1144-1341 | a slave to be booted that differs in a number to be checked is not reported as booted, in any run |
| `BootRuns.OutdatedIsNeverBooted` | lib/co/nmt_boot.c:1455-1523 | neither is one with other software than is to be checked for, unless it is kept alive because it is operational |
| `BootRuns.StaleIsNeverBooted` | lib/co/nmt_boot.c:1966-2086 | nor one whose configuration has another date or time than expected, and that does not accept a configuration |
| `BootRuns.StepAdvances` | lib/co/nmt_boot.c:1144-2145 | every answer as configured takes the process strictly closer to success, also through a program update |
| `BootRuns.RunAdvances` | lib/co/nmt_boot.c:1144-2145 | from any state of an attempt, as many such answers as the distance end it with status 0 or L |
| `BootRuns.BootSucceeds` | lib/co/nmt_boot.c:1027-2145 | a slave in the network list that answers as configured is booted within twelve events of the request |
| `BootRuns.UnexpectedTimerIff` | lib/co/nmt_boot.c:986-993 | exactly which event leaves the timer running in a state that has no timeout handler: a message after a communication reset, if the next request is accepted |
| `BootRuns.UnexpectedRun` | lib/co/nmt_boot.c:1342-1453 | a run, for every slave that is to be kept alive and is pre-operational, in which it happens |
| `NmtMaster.Master.BootCon` | lib/co/nmt.c:3117-3141 | the master becomes operational exactly if it is not halted and no mandatory slave is booting |
| `NmtMaster.Master.StartupBit` | lib/co/nmt.c:3322-3330 | the master may start by itself exactly if bit 2 of the startup value is 0 |
| `NmtMaster.MandatoryBits` | lib/co/nmt.c:3117-3141 | a slave is mandatory exactly if bits 0 and 3 of its assignment are set |
| `NmtMaster.Master.Startup` | lib/co/nmt.c:3270-3321 | the startup, with processes that end at once, computes `AfterStartup` |
| `NmtMaster.StartupAccounts` | lib/co/nmt.c:3585-3612 | a startup that leaves the master pre-operational accounts for every mandatory slave |
| `NmtMaster.ConfirmationAccounts` | lib/co/nmt.c:3117-3141 | from then on the master only becomes operational when every mandatory slave has booted, and never once it is halted |
| `NmtMaster.CourseAccounts` | lib/co/nmt.c:3117-3141 | in every course of confirmations and new boot requests, the master becomes operational only at a moment when every mandatory slave has booted, and never once it is halted |
| `NmtMaster.OutcomeMeans` | lib/co/nmt_boot.c:1027-1110 | a boot request ends at once, and well, exactly for a slave in the network list that is not to be booted and has no heartbeat |
| `NmtMaster.EarlyStartIff` | lib/co/nmt.c:3585-3612 | over assignments, heartbeat times and the creation of the processes: exactly when the startup makes the master operational although a mandatory slave has not booted |
| `NmtMaster.EarlyStart` | lib/co/nmt.c:3585-3612 | two mandatory slaves with which it does |

## Left out

- LSS: the other services (configuration of node-ID and bit rate, inquiries, store), abort requests during a scan, and answers that arrive after the timeout of their request.
- Client-SDO: the progress indications, `co_csdo_dn_val_req` and `co_csdo_blk_dn_val_req`, the functions on the local dictionary (`co_dev_dn_req` and others), and user callbacks that call back into the service, apart from the DCF chain.
- Server-SDO (`lib/co/ssdo.c`), apart from the reassembly of segments and the blocks that it sends.
- SdoRuns.LossyDownload: the server stays in the block phase while segments are missing; this library's own server leaves it at the last segment of all.
- SdoClient.Csdo.SendBlock: sends to a network that takes every frame; the results of `can_net_send` are ignored by the source.
- CanTimers.Net.SetTime: models callbacks that do not start or stop timers themselves.
- CanReceivers.Net.Deliver: models callbacks that do not start or stop receivers themselves, and the configuration with CAN FD, in which the key has 64 bits.
- CanBuffer.Buf.Write: writes one frame at a time, and `Read` and `Peek` likewise; positions do not overflow.
- SendPacing.Sender.CsTimer: does not model the expected states of the slaves that are updated along the way.
- PDO: transmit PDOs, SYNC and the expiry of event timers of RPDOs, and `co_pdo_dn`, which writes the values to the dictionary.
- RpdoConfig.Rpdo.CfgComm: models records in which all sub-objects up to the highest one exist.
- Dictionary.Dev.WriteDcf: does not model values that cannot be serialised.
- Dictionary.Dev.WriteSub: likewise.
- `co_dev_set_id` and the shifting of values that depend on the node-ID.
- NMT: abort requests of the boot process, the configuration process (its result is an event), heartbeat and node guarding, and the other states of the NMT service.
- BootRuns.AnyRun: leaves out that a timer expires in a state that has no handler, since the source asserts that this does not happen; `BootRuns.UnexpectedTimerIff` says when it can.
- The gateway, the parsers of EDS and DCF files, the device description compiler, tools, and the interfaces to drivers and operating systems.
- Memory management, error numbers and diagnostics, and the build variants without memory allocation or master services.

# BMC boot loader updater: host side, modelled and verified

This project models the host side of the flash-update protocol that the
ADLINK BMC updater uses. The host talks to a boot loader over an I2C/SMBus
byte transport. Every packet is framed as `[size + 2][checksum][payload]`.
The checksum is the 8-bit wrapping sum of the payload. The device
acknowledges a packet with a four-byte word whose second byte is ACK (0xCC).
A command is complete when the host has:

- sent the command;
- sent a GET_STATUS packet;
- read back a one-byte status frame that reads SUCCESS (0x40).

An update session (`RunBMCUpdater`) runs in this order:

1. It enters the boot loader.
2. `UpdateFlash` plans the transfer: the start and length, with an optional
   8 KiB boot loader and 0xFF padding.
3. `UpdateFlash` sends the 9-byte DOWNLOAD command. The host then waits
   before each acknowledgement poll, so the device can erase the flash.
4. `UpdateFlash` streams the image in SEND_DATA commands of
   `g_BlockTransferSize` bytes each. They are copied out of a 32 KiB file
   window that is refilled segment by segment.
5. The session ends with RUN, carrying the start address, or with RESET.

The parameter parser of `cli_output.c` is modelled too: `extract_param`
finds `name=value` in the programmer parameter string, returns the value and
cuts the parameter out of the string.

Layout:

- **`protocol.dfy`**: constants, the checksum and big-endian encoding.
- **`transport.dfy`**: the bus.
  - It is a script of outcomes, one per transport call, plus a log of what
    the host did.
  - A class `Bus` updates both in place.
  - `Wire` is the same state as a value.
- **`packets.dfy`**: the packet codec and the command handshake as functions
  of the bus state, with their properties.
- **`transfer.dfy`**: the transfer plan, the chunking of the image, the
  streaming loop and the file window, with their properties.
- **`bmc_update_lib.dfy`**: the imperative code of `bmc_update_lib.c`.
  - Its globals `g_pui8Buffer`, `g_ui32FileLength` and
    `g_BlockTransferSize` are the fields of a class `Loader`.
  - The loops are `while` loops with invariants.
  - Every method is proved to end in exactly the bus state and result that
    the matching function of `packets.dfy` or `transfer.dfy` gives.
- **`ad_bmc_updater.dfy`**: the session, its defaults and its properties.
- **`cli_output.dfy`**: `extract_param`, `extract_programmer_param` and
  `programmer_init`.
  - `extract_param`'s search loop is a method.
  - It is proved against a position-by-position reference definition.

I/O appears only as parameters:

- Files are byte sequences (`None` for a NULL `FILE *`).
- The bus is the scripted `Bus`.
- Delays are recorded in the log as `Delay(ms)` events.

## Model

| member | source | states |
|---|---|---|
| Protocol.SumAppend | bmc_update_lib.c:485-488 | The byte sum the checksum loop accumulates is additive over concatenation of payloads. |
| Protocol.Sum8Single | bmc_update_lib.c:477-490 | The checksum of a one-byte payload (the status frame) is that byte. |
| Protocol.SumUpdate | bmc_update_lib.c:485-488 | Replacing one payload byte changes the sum by exactly the difference between the new and the old byte. |
| Protocol.Sum8DetectsSingleByteChange | bmc_update_lib.c:455-459 | Changing any single byte of a payload changes its 8-bit checksum, so GetPacket's comparison detects it. |
| Protocol.BigEndian32 | bmc_update_lib.c:277-284 | The four bytes `(uint8_t)(x >> 24)` … `(uint8_t)x` are 4 bytes long and read back, most significant first, as x. |
| Protocol.BigEndianDigits | ad_bmc_updater.c:70-73 | The four shifted-and-truncated bytes of a 32-bit value recombine to the value. |
| Transport.Bus.Send | cli_classic.c:151-163 | I2CSendData: the bus takes the next outcome, logs the write, and the call succeeds exactly when that outcome is a success. |
| Transport.Bus.Receive | cli_classic.c:181-196 | I2CReceiveData: the bus takes the next outcome, logs the read, and returns its reply, or nothing when the read failed. |
| Transport.Bus.EnterBootloaderRaw | cli_classic.c:217-236 | I2CEnterBootloader: the raw entry write, logged with its command byte and the rest of the command. |
| Transport.Bus.Wait | cli_classic.c:199-202 | delay(ms): logged, and no outcome is consumed. |
| Packets.Overlay | cli_classic.c:190-193 | After a read, the destination starts with the whole reply, whatever size was asked for, and keeps its old bytes past the reply. |
| Packets.SendPacketWritesFrame | bmc_update_lib.c:513-544 | The frame goes out as three writes: size+2, then the checksum, then the payload. The first failed write is the last one attempted and the result is -1. Without bAck, three good writes give 0 and exactly the frame in the log. |
| Packets.PollAckExtendsLog | bmc_update_lib.c:556-568 | Polling for the acknowledgement only appends to the log. |
| Packets.SendPacketWithoutAck | bmc_update_lib.c:549-552 | Without bAck, SendPacket reads nothing. It returns 0 exactly when all three writes succeed, and then it has made exactly those writes. |
| Packets.SendPacketWithAck | bmc_update_lib.c:522-573 | With bAck, on any bus: a failed write gives -1, and the log ends with that write. After three good writes the result is that of an acknowledgement poll decided on the rest of the script, and the log is the frame followed by one wait-and-read per poll. |
| Packets.PollAckDecides | bmc_update_lib.c:556-573 | The acknowledgement poll on any bus. Every outcome it consumes before the last is a reply whose word reads as zero. It stops at the first outcome that is not such a reply, or when the script runs out. It returns 0 if and only if the outcome that decided it is a reply with ACK (0xCC) in the second byte of its word. The log gains one wait-and-read per read, including the read that finds the script exhausted. |
| Packets.FrameAccepted | bmc_update_lib.c:522-544 | Against a bus that accepts them, the three writes of a frame succeed in order and log exactly the frame. |
| Packets.PollAckAcked | bmc_update_lib.c:563-573 | An ACK word at the first poll gives 0 after one poll. |
| Packets.PollAckSkipsZeroWord | bmc_update_lib.c:556-573 | A reply whose word reads as zero is polled past. The ACK after it gives 0, after two wait-and-reads. |
| Packets.SendPacketAcked | bmc_update_lib.c:507-574 | A packet sent to a device that acknowledges at once returns 0. The log is the frame followed by one poll, preceded by a wait only for DOWNLOAD. |
| Packets.PollLengthSkipsZeros | bmc_update_lib.c:431-438 | Any number of zero length bytes are read past. The first nonzero byte is the frame length. |
| Packets.GetPacketRoundTrip | bmc_update_lib.c:422-462 | Round trip: a device that returns exactly the frame SendPacket writes, after any number of zero length bytes, has its payload delivered into the destination. GetPacket reports its size, sends ACK and returns 0. |
| Packets.ReadPayloadAccepts | bmc_update_lib.c:446-461 | A payload that matches its checksum is kept, its size is reported and ACK is sent. |
| Packets.GetPacketNaksCorruption | bmc_update_lib.c:455-459 | A frame with any one payload byte corrupted is NAKed with size 0. GetPacket returns the NAK write's result, 0. |
| Packets.GetStatusFrame | bmc_update_lib.c:132-137 | A correctly checksummed one-byte status frame is accepted and its byte lands in the status variable. |
| Packets.SendCommandWithDevice | bmc_update_lib.c:105-144 | Against a device that acknowledges both packets and reports status s, the whole exchange is logged and nothing more is read. The result is 0 exactly when s is SUCCESS. |
| Packets.SendCommandComposes | bmc_update_lib.c:113-143 | When the command, the GET_STATUS packet and the status read go through, the result is 0 exactly for SUCCESS. |
| Packets.SendCommandStopsAtFirstFailure | bmc_update_lib.c:113-143 | A failing step ends SendCommand with -1, with no further traffic. The result is 0 if and only if every step succeeded and the status byte is SUCCESS. |
| Packets.SendCommandAcceptsCorruptSuccess | bmc_update_lib.c:133-143 | A status frame whose checksum fails is NAKed, but its byte is still compared. A corrupt SUCCESS is reported as success. |
| Packets.EnterBootloaderStopsAtFirstFailure | bmc_update_lib.c:58-88 | On any bus, a failing step (raw entry, GET_STATUS packet, status read) ends EnterBootloader with -1, with no further traffic. The result is 0 if and only if all three steps went through, whatever status byte was read. |
| Packets.EnterBootloaderIgnoresStatus | bmc_update_lib.c:58-88 | A device that accepts the entry and the GET_STATUS packet and then reports any status s, even a failure code, gets 0 back. The log is the entry, the GET_STATUS frame with its poll, and the status read with its ACK. |
| Transfer.BufferLength | bmc_update_lib.c:174 | The file window `(0x8000 / block) * block` is a multiple of the block size. It is larger than `0x8000 - block`, and holds the boot loader plus one block. |
| Transfer.BootPrefix | bmc_update_lib.c:251-252 | The boot loader followed by 0xFF up to the application address. |
| Transfer.PlanTransfer | bmc_update_lib.c:181-270 | The plan is accepted if and only if all of the following hold: there is a file; any boot loader is exactly 0x2000 bytes, with the application address at or past its end and inside the file window; otherwise the file is not 0x2000 bytes at a nonzero address; and the first read delivers something. With a boot loader the plan is start 0, length address + file, image = boot loader, then 0xFF, then the file. Without one it is start = address, length = file size, image = file. |
| Transfer.DownloadPayload | bmc_update_lib.c:276-284 | DOWNLOAD is 9 bytes: 0x21, then start and length, each big-endian, reading back to the values. |
| Transfer.Chunks | bmc_update_lib.c:312-325 | The image leaves in pieces that concatenate back to it. All but the last are exactly one block, and the last holds at most one block and is not empty. |
| Transfer.ChunkCount | bmc_update_lib.c:300-343 | The number of SEND_DATA commands is the number of blocks the image starts, ceil(length / block). |
| Transfer.SendDataCommands | bmc_update_lib.c:304-329 | One SEND_DATA command per chunk, in chunk order. |
| Transfer.StreamSendsChunks | bmc_update_lib.c:300-343 | The countdown loop sends exactly `[0x24] + chunk` for each chunk of the image in order, stopping at the first failure. |
| Transfer.CommandsAcceptedPrefix | bmc_update_lib.c:300-343 | Against a device that accepts the first k commands, those go out one full exchange each, and the rest start from there. |
| Transfer.CommandsAccepted | bmc_update_lib.c:300-343 | Against a device that accepts every command, all of them go out one full exchange each and the result is 0. |
| Transfer.CommandsStopAtRejected | bmc_update_lib.c:329-333 | When the device rejects the (k+1)-th command, the sequence ends with -1 right after it. Nothing later is sent. |
| Transfer.RejectedPlanIsSilent | bmc_update_lib.c:181-271 | A rejected plan returns -1 without any bus traffic. |
| Transfer.UpdateCommands | bmc_update_lib.c:276-329 | Every command of an update, DOWNLOAD and each SEND_DATA, fits in one frame. |
| Transfer.UpdateFlashSendsCommands | bmc_update_lib.c:276-343 | An accepted plan is carried out, on any bus, as DOWNLOAD followed by the SEND_DATA commands of the image's chunks, stopping at the first failure. |
| Transfer.UpdateFlashSucceeds | bmc_update_lib.c:276-350 | Against a device that accepts everything, every command goes out one full exchange each and UpdateFlash returns 0. |
| Transfer.UpdateFlashStopsAtFailedDownload | bmc_update_lib.c:285-290 | A DOWNLOAD answered with a failing status ends the update with -1, with no SEND_DATA. |
| Transfer.DownloadWaitsForErase | bmc_update_lib.c:556-562 | On any bus that takes the DOWNLOAD frame, the poll makes at least one read. Every read is preceded by a wait of `(g_ui32FileLength / 0x400 + 1) * 9` ms. |
| Transfer.SendDataDoesNotWait | bmc_update_lib.c:556-562 | On any bus that takes the SEND_DATA frame, the poll makes at least one read. The reads follow each other with no wait. |
| Transfer.BlocksOfMultiple | bmc_update_lib.c:174 | A multiple of the block size is a whole number of blocks. |
| Transfer.WindowIsBlocks | bmc_update_lib.c:174 | The file window is a whole number of blocks. |
| Transfer.WindowSlice | bmc_update_lib.c:314 | A chunk copied from inside the window is the stretch of the image it covers. |
| Transfer.Refilled | bmc_update_lib.c:335-340 | Reading the next stretch of the file over the window moves the window one window length further along the image. |
| BmcUpdateLib.CheckSum | bmc_update_lib.c:477-490 | The loop returns the payload's byte sum mod 256 (0 for an empty payload). |
| BmcUpdateLib.ReadFile | bmc_update_lib.c:267 | fread copies what is left of the file, at most the count, and reports how many bytes. Nothing else in the buffer changes. |
| BmcUpdateLib.Loader.constructor | bmc_update_lib.c:41-42 | The globals start zeroed: g_ui32FileLength is 0 and g_pui8Buffer is a fresh 256-byte buffer. g_BlockTransferSize is the given block size. |
| BmcUpdateLib.Loader.SendPacket | bmc_update_lib.c:507-574 | The three writes and the do/while acknowledgement poll leave the bus and the result that SendPacketRun gives. |
| BmcUpdateLib.Loader.AckPacket | bmc_update_lib.c:379-386 | One byte 0xCC is written, and the result is 0 exactly when the write succeeded. |
| BmcUpdateLib.Loader.NakPacket | bmc_update_lib.c:399-406 | One byte 0x33 is written, and the result is 0 exactly when the write succeeded. |
| BmcUpdateLib.Loader.GetPacket | bmc_update_lib.c:422-462 | The bus, the result, the destination bytes and *pui8Size are what GetPacketRun gives. |
| BmcUpdateLib.Loader.PollLengthByte | bmc_update_lib.c:431-438 | The do/while loop on the length byte ends as PollLength says. |
| BmcUpdateLib.Loader.ReadPayloadInto | bmc_update_lib.c:446-461 | The payload read, the checksum comparison and the ACK/NAK end as ReadPayload says. |
| BmcUpdateLib.Loader.SendCommand | bmc_update_lib.c:105-144 | The three steps leave the bus and result that SendCommandRun gives. |
| BmcUpdateLib.Loader.EnterBootloader | bmc_update_lib.c:58-88 | The raw entry and the status round trip leave the bus and result that EnterBootloaderRun gives. |
| BmcUpdateLib.Loader.UpdateFlash | bmc_update_lib.c:166-351 | The checks, the image build, DOWNLOAD and the streaming loop leave the bus and result that UpdateFlashRun gives. g_ui32FileLength becomes the file's size. |
| BmcUpdateLib.Loader.LoadWindow | bmc_update_lib.c:234-271 | The first reads fill the window with the start of the image. They fail exactly when the application address is inside the boot loader or the application read delivers nothing. |
| BmcUpdateLib.Loader.BuildDownload | bmc_update_lib.c:276-284 | g_pui8Buffer[0..9] holds the DOWNLOAD command. |
| BmcUpdateLib.Loader.StreamImage | bmc_update_lib.c:296-343 | The do/while loop over the image sends what StreamRun says and returns its result. |
| BmcUpdateLib.Loader.SendBlock | bmc_update_lib.c:302-340 | One pass: -1 ends the stream as StreamRun says. Otherwise fewer bytes remain and the loop invariant holds again. |
| BmcUpdateLib.Loader.AdvanceBlock | bmc_update_lib.c:335-340 | After an acknowledged SEND_DATA, the loop moves on by one chunk with its invariant kept. |
| BmcUpdateLib.Loader.SendChunk | bmc_update_lib.c:304-333 | The chunk copied from the window goes out as SEND_DATA, and the rest of the stream is what StreamRun says is left. |
| BmcUpdateLib.Loader.NextSegment | bmc_update_lib.c:335-340 | When the next block would run past the window, the window is refilled and, if the file gave more, the counter advances. Either way the window still matches the image. |
| BmcUpdateLib.Loader.Refill | bmc_update_lib.c:338-339 | The refill reads the next window's worth of the file, or leaves the window untouched when the file is exhausted. |
| BmcUpdateLib.Loader.CopyChunk | bmc_update_lib.c:304-321 | g_pui8Buffer holds SEND_DATA followed by the chunk. |
| BmcUpdateLib.ChunkInWindow | bmc_update_lib.c:312-321 | At the top of the loop the next chunk lies inside the window, and what remains of the window is still whole blocks. |
| BmcUpdateLib.SegmentIsWindowNumber | bmc_update_lib.c:314-340 | At the top of the loop the segment counter is the number of the file window the offset lies in, `offset / L`. |
| BmcUpdateLib.SegmentCounterWraps | bmc_update_lib.c:173 | As written (8-bit fsegment), at any loop state 256 or more windows into the image the copy index `offset - (fsegment mod 256) * L` is a whole window or more past the buffer start, so the chunk runs past the buffer's end. |
| BmcUpdateLib.StreamingAdvances | bmc_update_lib.c:312-340 | One pass keeps the loop invariant: position, window contents and the rest of the stream. |
| AdBmcUpdater.FinalPayload | ad_bmc_updater.c:63-86 | If and only if the start address is not 0xFFFFFFFF, the session ends with 5-byte RUN whose address reads back as the start address. Otherwise it ends with RESET `[0x25]`. |
| AdBmcUpdater.BuildFinal | ad_bmc_updater.c:63-86 | g_pui8Buffer holds the RUN or RESET command that FinalPayload describes. |
| AdBmcUpdater.RunBmcUpdater | ad_bmc_updater.c:41-93 | The session (enter, update, RUN/RESET) leaves the bus and result that SessionRun gives. g_ui32FileLength becomes the application's size once EnterBootloader has succeeded and a file is given; otherwise it is unchanged. |
| AdBmcUpdater.DefaultFinalPayloadIsRun | ad_bmc_updater.c:38 | With the default start address 0x2004 the final command is `[0x22, 0, 0, 0x20, 0x04]`. |
| AdBmcUpdater.DefaultBlockTransferSizeFits | ad_bmc_updater.c:39 | The default block size 0x1c fits a frame, and its window is 0x7ff8 bytes. |
| AdBmcUpdater.SessionStopsWhenEnterFails | ad_bmc_updater.c:48-52 | On any bus, when EnterBootloader fails at any of its steps the session returns -1 on the bus EnterBootloader left. UpdateFlash never starts and no RUN or RESET is sent. |
| AdBmcUpdater.SessionStopsWhenUpdateFails | ad_bmc_updater.c:54-57 | A failed update returns -1 with no RUN or RESET. |
| AdBmcUpdater.SessionSucceedsIff | ad_bmc_updater.c:41-92 | On any bus the session returns 0 if and only if EnterBootloader and then UpdateFlash succeed; otherwise it returns -1. The RUN/RESET packet never decides the result. |
| AdBmcUpdater.SessionWithRejectedPlan | ad_bmc_updater.c:54-57 | An update rejected before any command costs only the entry exchange. |
| AdBmcUpdater.SessionIgnoresFinalPacket | ad_bmc_updater.c:63-92 | After a successful update the session returns 0, whatever happens to the RUN/RESET packet, which is sent with acknowledgement. |
| AdBmcUpdater.DefaultSessionSucceeds | ad_bmc_updater.c:37-92 | With the defaults, against a device that accepts everything, every update command goes out, and the session returns 0 even when the RUN write fails. |
| CliOutput.StrStr | cli_output.c:64 | strstr: the first occurrence at or after the position, or none at all. |
| CliOutput.FirstQualifying | cli_output.c:64-81 | The first occurrence followed by '=' and at the start or after a delimiter, or none. |
| CliOutput.ValueEnd | cli_output.c:86 | strcspn: where the delimiter-free text ends, at a delimiter or the end. |
| CliOutput.SkipDelims | cli_output.c:97 | strspn: where the run of delimiters ends, at a non-delimiter or the end. |
| CliOutput.FindParam | cli_output.c:64-81 | The do/while loop of strstr calls finds exactly the first qualifying occurrence. |
| CliOutput.ExtractParam | cli_output.c:48-103 | extract_param's result and new haystack are those of Extract. |
| CliOutput.Programmer.constructor | cli_output.c:34 | programmer_param starts out NULL. |
| CliOutput.Programmer.Init | cli_output.c:37-41 | programmer_init stores the string and returns 0. |
| CliOutput.Programmer.ExtractProgrammerParam | cli_output.c:105-108 | extract_param with delimiter "," on the stored string, which is updated. |
| CliOutput.ExtractWithoutInput | cli_output.c:55-63 | An empty needle or a NULL haystack returns NULL and leaves the haystack unchanged. |
| CliOutput.ExtractMissing | cli_output.c:64-67 | With no qualifying occurrence the result is NULL and the haystack is unchanged. |
| CliOutput.FirstQualifyingIs | cli_output.c:64-81 | The least qualifying index is the one chosen. |
| CliOutput.ExtractAt | cli_output.c:83-98 | Once the parameter is found at i, the value and the new haystack are cut at i, at the value's end, and after the following delimiters. |
| CliOutput.Cut | cli_output.c:85-98 | The cut's value holds no delimiter, the skipped text is all delimiters, and the prefix is kept. Gluing `needle=value` and the delimiters back in gives the old string. |
| CliOutput.ExtractFound | cli_output.c:83-98 | The first qualifying occurrence is taken. The value runs to the next delimiter and may be empty. The prefix, with its delimiter, is kept. The rest resumes at a non-delimiter. The old string is the new one with `needle=value` and the delimiters put back. |
| CliOutput.ExtractShrinks | cli_output.c:95-98 | Extraction removes at least the name, its '=' and the value. |
| CliOutput.ExtractSkipsSuffixMatch | cli_output.c:64-81 | In "xaddr=1,addr=2" the parameter addr is "2", and "xaddr=1," remains. |
| CliOutput.ExtractEmptyValue | cli_output.c:87-97 | "addr=,,bus=1" yields "" and leaves "bus=1". |

Where the model follows the code rather than a reading of the protocol:

- **SendPacket and empty payloads:** SendPacket always makes three writes,
  even for an empty payload.
- **Corrupt status frames:** GetPacket answers a bad checksum with NAK but
  returns the NAK write's result (0). SendCommand therefore goes on to
  compare the status byte it read, and a corrupt SUCCESS is accepted
  (`Packets.SendCommandAcceptsCorruptSuccess`).
- **EnterBootloader:** EnterBootloader never compares the status byte with
  SUCCESS.
- **RUN and RESET:** both are sent with acknowledgement requested (bAck = 1),
  and their result is ignored.
- **Wrap-around:** the 8-bit `ui8Length - 2` of GetPacket wraps, following
  the code (`Packets.FrameSize`), so a length byte of 1 announces 255 bytes.

## Left out

- **cli_classic.c** (the Linux I2C/SMBus calls, `getopt`, `main`) is not
  part of this model. The transport is the scripted `Transport.Bus`.
- **The 400 ms delay** inside I2CEnterBootloader is not logged.
- **I2CReceiveData's 32-byte SMBus buffer:** replies may be of any length.
- **Overflowing reads:** the bytes a read copies past the end of the
  destination (I2CReceiveData copies the whole reply) are not written
  anywhere. The destination keeps only its own length.
- **Timing:** the only timing modelled is the delays the host asks for,
  recorded as events. Wall-clock time is left out.
- **File I/O:** `fseek`/`ftell`/`fread`/`fclose` are replaced. Files are byte
  sequences, and `fread` takes the next slice (`BmcUpdateLib.ReadFile`).
- **`malloc` failures, leaks and `free`:** not modelled. They do not change
  what goes on the bus.
- **Output:** progress printing, message output and the log file functions of
  cli_output.c are left out. They are output only.
- **Preconditions for undefined edges** (`Transfer.Defined`,
  `Transfer.BlockSize`, `|p| <= MAX_PAYLOAD`):
  - payloads over 253 bytes (`ui8Size += 2` wraps);
  - a block size of 0 or of 253 and more (division by zero, and a SEND_DATA
    that does not fit a frame);
  - 32-bit wrap of `address + length`;
  - with a boot loader, an application address past the file window (memset
    and fread would write outside the buffer).
- **PollAckDecides:** the "second byte" of the acknowledgement word is
  `(uint8_t)(ui32Ack >> 8)` only on a little-endian host, which the model
  assumes: the reply's bytes land in `ui32Ack` in memory order.
- **Uninitialised locals:** the length byte, checksum byte and acknowledgement
  word that the source reads before assigning them are taken as zero. Bytes
  read beyond a short reply are taken as zero.
- **`pui8Data[0]` of an empty payload:** SendPacket's DOWNLOAD test reads it,
  past the payload. The model treats an empty payload as not DOWNLOAD. No
  caller sends one.
- **Termination of the polling loops:** they terminate only because the reply
  script is finite. A device that answers zero forever is not modelled.
- **Where the settings live:** `g_ui32DownloadAddress` and
  `g_ui32StartAddress` are a `Config` value, so both final commands can be
  reasoned about. `g_BlockTransferSize` is a constant field of the `Loader`.
  Setting them from the command line is not modelled.
- **`fclose`:** the `fclose` of the application file at the end of
  RunBMCUpdater is file I/O and is not modelled.
- **CliOutput.ExtractParam:** the in-place `memmove` on the caller's string is
  modelled as returning the new string. Aliasing of that string is not
  captured. C strings are their characters up to the NUL.
- **BmcUpdateLib.Loader.StreamImage:** uses an unbounded segment counter (the
  corrected behaviour below). As written the counter is 8-bit.

## Findings

| source | as written | input that shows it | evidently intended | confidence | as-written member | corrected member |
|---|---|---|---|---|---|---|
| bmc_update_lib.c:173 | `uint8_t fsegment` counts window refills and indexes the window by `ui32Offset - fsegment * ui32FileBufferLength` (line 314) | an image of more than 256 windows (more than 256 × 0x7ff8 bytes at the default block size): at a loop state 256 windows in, the counter reads 0 and the copy index is 256 × L or more, past the buffer | a counter wide enough for every refill (for example uint32_t), so that the index stays in `[0, L - chunk]` | not executed; follows from the 8-bit type | BmcUpdateLib.SegmentCounterWraps | BmcUpdateLib.ChunkInWindow and BmcUpdateLib.Loader.StreamImage |

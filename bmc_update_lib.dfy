/**
 * The host side of the boot loader protocol as bmc_update_lib.c writes it:
 * the checksum loop, the packet codec with its polling loops, the command
 * handshake, and the flash update with its file window.  The globals these
 * functions share (g_pui8Buffer, g_ui32FileLength, g_BlockTransferSize) and
 * the bus they talk over are the fields of a Loader.  Each method is proved
 * to do exactly what the matching function of Packets or Transfer says; the
 * properties of the protocol are proved about those functions.
 */
module BmcUpdateLib {

  import opened Optional
  import opened Protocol
  import opened Transport
  import opened Packets
  import opened Transfer

  /** CheckSum(pui8Data, ui8Size): an 8-bit accumulator over the payload. */
  method CheckSum(data: seq<Byte>) returns (r: Byte)
    requires |data| < 256
    ensures r == Sum8(data)
  {
    r := 0;
    for i := 0 to |data|
      invariant r == Sum8(data[..i])
    {
      assert data[..i + 1][..i] == data[..i];
      r := (r + data[i]) % 256;
    }
    assert data[..|data|] == data;
  }

  /** fread(buffer + at, 1, count, file) on a file positioned at `cursor`:
   *  copies what is left of the file, at most `count` bytes, and says how many. */
  method ReadFile(buffer: array<Byte>, at: nat, file: seq<Byte>, cursor: nat, count: nat) returns (n: nat)
    requires cursor <= |file| && at + count <= buffer.Length
    modifies buffer
    ensures n == FreadCount(|file| - cursor, count)
    ensures forall i :: 0 <= i < buffer.Length ==>
              buffer[i] == if at <= i < at + n then file[cursor + i - at] else old(buffer[i])
  {
    n := FreadCount(|file| - cursor, count);
    forall i | at <= i < at + n {
      buffer[i] := file[cursor + i - at];
    }
  }

  class Loader {
    /** The bus the host talks over. */
    const bus: Bus
    /** g_pui8Buffer: where every command is built before it is sent. */
    const packet: array<Byte>
    /** g_ui32FileLength: the size of the application file, which sets the erase delay. */
    var fileLength: nat
    /** g_BlockTransferSize: the number of image bytes per SEND_DATA command. */
    const block: nat

    ghost predicate Valid()
      reads this
    {
      packet.Length == 256 && BlockSize(block)
    }

    constructor (bus: Bus, block: nat)
      requires BlockSize(block)
      ensures Valid() && fresh(packet)
      ensures this.bus == bus && this.block == block && fileLength == 0
    {
      this.bus := bus;
      this.block := block;
      packet := new Byte[256];
      fileLength := 0;
    }

    /** SendPacket(pui8Data, ui8Size, bAck). */
    method SendPacket(p: seq<Byte>, ack: bool) returns (r: int)
      requires |p| <= MAX_PAYLOAD
      modifies bus
      ensures (bus.State(), r) == SendPacketRun(old(bus.State()), p, ack, fileLength)
    {
      var sum := CheckSum(p);
      var ok := bus.Send([|p| + 2]);
      if !ok { return -1; }
      ok := bus.Send([sum]);
      if !ok { return -1; }
      ok := bus.Send(p);
      if !ok { return -1; }
      if !ack { return 0; }
      // ui32Ack: read before it is ever assigned, taken as zero.
      var word := Zero4;
      ghost var goal := PollAck(bus.State(), word, AckDelay(p, fileLength));
      while true
        invariant |word| == 4
        invariant PollAck(bus.State(), word, AckDelay(p, fileLength)) == goal
        decreases |bus.script|
      {
        if |p| > 0 && p[0] == COMMAND_DOWNLOAD {
          bus.Wait((fileLength / 0x400 + 1) * 9);
        }
        var reply := bus.Receive();
        if reply.None? { return -1; }
        word := Overlay(word, reply.value)[..4];
        if word != Zero4 {
          return if word[1] == COMMAND_ACK then 0 else -1;
        }
      }
    }

    /** AckPacket(). */
    method AckPacket() returns (r: int)
      modifies bus
      ensures (bus.State(), r) == ReplyRun(old(bus.State()), COMMAND_ACK)
    {
      var ok := bus.Send([COMMAND_ACK]);
      r := if ok then 0 else -1;
    }

    /** NakPacket(). */
    method NakPacket() returns (r: int)
      modifies bus
      ensures (bus.State(), r) == ReplyRun(old(bus.State()), COMMAND_NAK)
    {
      var ok := bus.Send([COMMAND_NAK]);
      r := if ok then 0 else -1;
    }

    /** GetPacket(pui8Data, pui8Size): `dest` is the caller's buffer and
     *  `size0` what *pui8Size holds on entry; `size` is what it holds on return. */
    method GetPacket(dest: array<Byte>, size0: Byte) returns (r: int, size: Byte)
      modifies bus, dest
      ensures var g := GetPacketRun(old(bus.State()), old(dest[..]), size0);
              bus.State() == g.wire && r == g.status && dest[..] == g.dest && size == g.size
    {
      ghost var w0 := bus.State();
      var length := PollLengthByte();
      ghost var w1 := bus.State();
      if length.None? {
        GetPacketSteps(w0, dest[..], size0, w1, length, None, w1);
        return -1, size0;
      }
      var checkReply := bus.Receive();
      GetPacketSteps(w0, dest[..], size0, w1, length, checkReply, bus.State());
      if checkReply.None? { return -1, size0; }
      var check := Load(0, checkReply.value);
      size := FrameSize(length.value);
      r, size := ReadPayloadInto(dest, size, check);
    }

    /** The first loop of GetPacket: the length byte is read until it is nonzero. */
    method PollLengthByte() returns (length: Option<Byte>)
      modifies bus
      ensures (bus.State(), length) == PollLength(old(bus.State()), 0)
    {
      // ui8Size: read before it is ever assigned, taken as zero.
      var size: Byte := 0;
      ghost var polled := PollLength(bus.State(), 0);
      while true
        invariant PollLength(bus.State(), size) == polled
        decreases |bus.script|
      {
        var reply := bus.Receive();
        if reply.None? { return None; }
        size := Load(size, reply.value);
        if size != 0 { return Some(size); }
      }
    }

    /** The rest of GetPacket: the payload read into `dest`, the checksum
     *  comparison against `check`, and the ACK or NAK. */
    method ReadPayloadInto(dest: array<Byte>, n: Byte, check: Byte) returns (r: int, size: Byte)
      modifies bus, dest
      ensures var g := ReadPayload(old(bus.State()), n, check, old(dest[..]));
              bus.State() == g.wire && r == g.status && dest[..] == g.dest && size == g.size
    {
      var data := bus.Receive();
      if data.None? { return -1, 0; }
      var memory := Overlay(dest[..], data.value);
      forall i | 0 <= i < dest.Length {
        dest[i] := memory[i];
      }
      assert dest[..] == memory[..dest.Length];
      var sum := CheckSum(Take(memory, n));
      if sum != check {
        size := 0;
        r := NakPacket();
      } else {
        size := n;
        r := AckPacket();
      }
    }

    /** SendCommand(pui8Command, ui8Size). */
    method SendCommand(command: seq<Byte>) returns (r: int)
      requires |command| <= MAX_PAYLOAD
      modifies bus
      ensures (bus.State(), r) == SendCommandRun(old(bus.State()), command, fileLength)
    {
      ghost var w0 := bus.State();
      var r1 := SendPacket(command, true);
      ghost var w1 := bus.State();
      if r1 < 0 {
        SendCommandSteps(w0, command, fileLength, w1, r1, w1, 0, Reception(w1, 0, [], 0));
        return -1;
      }
      var status := new Byte[1];
      status[0] := COMMAND_GET_STATUS;
      assert status[..] == [COMMAND_GET_STATUS];
      var r2 := SendPacket(status[..], true);
      ghost var w2 := bus.State();
      if r2 < 0 {
        SendCommandSteps(w0, command, fileLength, w1, r1, w2, r2, Reception(w2, 0, [], 0));
        return -1;
      }
      var r3, size := GetPacket(status, 1);
      SendCommandSteps(w0, command, fileLength, w1, r1, w2, r2, Reception(bus.State(), r3, status[..], size));
      if r3 < 0 { return -1; }
      if status[0] != COMMAND_RET_SUCCESS { return -1; }
      return 0;
    }

    /** EnterBootloader(pui8Command, ui8Size). */
    method EnterBootloader(command: seq<Byte>) returns (r: int)
      requires |command| >= 1
      modifies bus
      ensures (bus.State(), r) == EnterBootloaderRun(old(bus.State()), command, fileLength)
    {
      ghost var w0 := bus.State();
      var ok := bus.EnterBootloaderRaw(command[0], command[1..]);
      ghost var w1 := bus.State();
      if !ok {
        EnterBootloaderSteps(w0, command, fileLength, ok, w1, w1, 0, Reception(w1, 0, [], 0));
        return -1;
      }
      var status := new Byte[1];
      status[0] := COMMAND_GET_STATUS;
      assert status[..] == [COMMAND_GET_STATUS];
      var r2 := SendPacket(status[..], true);
      ghost var w2 := bus.State();
      if r2 < 0 {
        EnterBootloaderSteps(w0, command, fileLength, ok, w1, w2, r2, Reception(w2, 0, [], 0));
        return -1;
      }
      var r3, size := GetPacket(status, 1);
      EnterBootloaderSteps(w0, command, fileLength, ok, w1, w2, r2, Reception(bus.State(), r3, status[..], size));
      if r3 < 0 { return -1; }
      return 0;
    }

    /** UpdateFlash(hFile, hBootFile, ui32Address): a NULL file is None. */
    method UpdateFlash(app: Option<seq<Byte>>, boot: Option<seq<Byte>>, address: nat) returns (r: int)
      requires Valid() && Defined(app, boot, address, block)
      modifies this, bus, packet
      ensures (bus.State(), r) == UpdateFlashRun(old(bus.State()), app, boot, address, block)
      ensures fileLength == if app.Some? then |app.value| else old(fileLength)
    {
      if app.None? { return -1; }
      var file := app.value;
      fileLength := |file|;
      var transferLength := fileLength;
      var transferStart := address;
      if boot.Some? {
        if |boot.value| != BOOTLOADER_LENGTH { return -1; }
        transferLength := address + fileLength;
        transferStart := 0;
      } else if fileLength == BOOTLOADER_LENGTH && address != 0 {
        return -1;
      }
      var bufferLength := (FILE_BUFFER_LENGTH / block) * block;
      assert bufferLength == BufferLength(block);
      var buffer := new Byte[bufferLength];
      var ok, cursor, prefix, image := LoadWindow(buffer, file, boot, address);
      if !ok { return -1; }
      ghost var t := PlanTransfer(app, boot, address, block).value;
      assert t == Transfer(transferStart, transferLength, image);
      BuildDownload(transferStart, transferLength);
      r := SendCommand(packet[..9]);
      UpdateFlashSteps(old(bus.State()), app, boot, address, block, bus.State(), r);
      if r < 0 { return -1; }
      r := StreamImage(buffer, image, transferLength, file, prefix, cursor);
    }

    /** The file reads of UpdateFlash before DOWNLOAD: with a boot loader, its
     *  image, erased flash up to the application address and then as much of
     *  the application as fits; without one, as much of the application as
     *  fits.  Fails when the application address lies inside the boot loader
     *  or when the read of the application delivers nothing. */
    method LoadWindow(buffer: array<Byte>, file: seq<Byte>, boot: Option<seq<Byte>>, address: nat)
      returns (ok: bool, cursor: nat, ghost prefix: nat, ghost image: seq<Byte>)
      requires buffer.Length >= BOOTLOADER_LENGTH
      requires boot.Some? ==> |boot.value| == BOOTLOADER_LENGTH
      requires boot.Some? && address >= BOOTLOADER_LENGTH ==> address <= buffer.Length
      modifies buffer
      ensures boot.Some? ==> (ok <==> BOOTLOADER_LENGTH <= address && FreadCount(|file|, buffer.Length - address) > 0)
      ensures boot.None? ==> (ok <==> FreadCount(|file|, buffer.Length) > 0)
      ensures ok ==> && image == (if boot.Some? then BootPrefix(boot.value, address) + file else file)
                     && prefix == (if boot.Some? then address else 0)
                     && prefix + cursor == Min(|image|, buffer.Length) && cursor <= |file|
                     && Window(buffer[..], image, 0)
    {
      if boot.Some? {
        // The boot loader file has exactly the BOOTLOADER_LENGTH bytes asked for,
        // so this fread always delivers all of them.
        var n := ReadFile(buffer, 0, boot.value, 0, BOOTLOADER_LENGTH);
        if address < BOOTLOADER_LENGTH { return false, 0, 0, []; }
        forall i | BOOTLOADER_LENGTH <= i < address {
          buffer[i] := ERASED;
        }
        n := ReadFile(buffer, address, file, 0, buffer.Length - address);
        if n == 0 { return false, 0, 0, []; }
        ok, cursor, prefix := true, n, address;
        image := BootPrefix(boot.value, address) + file;
      } else {
        var n := ReadFile(buffer, 0, file, 0, buffer.Length);
        if n == 0 { return false, 0, 0, []; }
        ok, cursor, prefix, image := true, n, 0, file;
      }
    }

    /** The DOWNLOAD command written into g_pui8Buffer: the command byte, then
     *  start and length, each most significant byte first. */
    method BuildDownload(start: nat, length: nat)
      requires Valid() && start < U32_LIMIT && length < U32_LIMIT
      modifies packet
      ensures packet[..9] == DownloadPayload(start, length)
    {
      packet[0] := COMMAND_DOWNLOAD;
      packet[1] := (start / 0x100_0000) % 0x100;
      packet[2] := (start / 0x1_0000) % 0x100;
      packet[3] := (start / 0x100) % 0x100;
      packet[4] := start % 0x100;
      packet[5] := (length / 0x100_0000) % 0x100;
      packet[6] := (length / 0x1_0000) % 0x100;
      packet[7] := (length / 0x100) % 0x100;
      packet[8] := length % 0x100;
    }

    /** The do/while loop of UpdateFlash: the image goes out one SEND_DATA
     *  command per block, copied from the file window, which is refilled
     *  from the file whenever the next block would no longer fit in it.  The
     *  window counter is unbounded here; as written it is a uint8_t.  The
     *  loop runs at least once because the image is not empty. */
    method StreamImage(buffer: array<Byte>, ghost image: seq<Byte>, length: nat,
                       file: seq<Byte>, ghost prefix: nat, cursor0: nat) returns (r: int)
      requires Valid() && buffer.Length == BufferLength(block)
      requires 0 < |image| == length && prefix + |file| == |image| && image[prefix..] == file
      requires fileLength == |file| && prefix + cursor0 == Min(|image|, buffer.Length)
      requires Window(buffer[..], image, 0)
      modifies bus, packet, buffer
      ensures (bus.State(), r) == StreamRun(old(bus.State()), image, block, fileLength)
    {
      var offset: nat := 0;
      var remaining: nat := length;
      var segment: nat := 0;
      var cursor := cursor0;
      // The image positions the window covers start at base; span is the
      // part of the window not yet sent.
      ghost var base: nat := 0;
      ghost var span: nat := buffer.Length;
      ghost var goal := StreamRun(bus.State(), image, block, fileLength);
      assert image[0..] == image;
      WindowIsBlocks(block);
      while remaining > 0
        invariant Streaming(buffer[..], bus.State(), goal, image, file, prefix, block, fileLength,
                            offset, remaining, segment, cursor, base, span)
        decreases remaining
      {
        r, offset, remaining, segment, cursor, base, span :=
          SendBlock(buffer, image, file, prefix, offset, remaining, segment, cursor, base, span, goal);
        if r < 0 { return -1; }
      }
      return 0;
    }

    /** One pass of the loop: the next chunk is sent and, when the next block
     *  would run past the window, the window is refilled.  A failed SEND_DATA
     *  ends the update at once. */
    method SendBlock(buffer: array<Byte>, ghost image: seq<Byte>, file: seq<Byte>, ghost prefix: nat,
                     offset: nat, remaining: nat, segment: nat, cursor: nat, ghost base: nat, ghost span: nat,
                     ghost goal: (Wire, int))
      returns (r: int, offset': nat, remaining': nat, segment': nat, cursor': nat, ghost base': nat, ghost span': nat)
      requires Valid() && buffer.Length == BufferLength(block) && remaining > 0
      requires Streaming(buffer[..], bus.State(), goal, image, file, prefix, block, fileLength,
                         offset, remaining, segment, cursor, base, span)
      modifies bus, packet, buffer
      ensures r < 0 ==> goal == (bus.State(), -1) && r == -1
      ensures r >= 0 ==> (remaining' < remaining &&
                          Streaming(buffer[..], bus.State(), goal, image, file, prefix, block, fileLength,
                                    offset', remaining', segment', cursor', base', span'))
    {
      ghost var window, w := buffer[..], bus.State();
      var chunk: nat := if remaining >= block then block else remaining;
      var index := offset - segment * buffer.Length;
      ChunkInWindow(window, w, goal, image, file, prefix, block, fileLength,
                    offset, remaining, segment, cursor, base, span);
      r := SendChunk(buffer, index, chunk, image[offset..]);
      if r < 0 {
        return -1, offset, remaining, segment, cursor, base, span;
      }
      offset', remaining', segment', cursor', base', span' :=
        AdvanceBlock(buffer, image, file, prefix, offset, remaining, segment, cursor, base, span, chunk, w, goal);
    }

    /** The rest of a pass whose SEND_DATA was acknowledged: the loop moves
     *  chunk bytes on and the window is refilled if the next block would
     *  run past it. */
    method AdvanceBlock(buffer: array<Byte>, ghost image: seq<Byte>, file: seq<Byte>, ghost prefix: nat,
                        offset: nat, remaining: nat, segment: nat, cursor: nat, ghost base: nat, ghost span: nat,
                        chunk: nat, ghost w: Wire, ghost goal: (Wire, int))
      returns (offset': nat, remaining': nat, segment': nat, cursor': nat, ghost base': nat, ghost span': nat)
      requires Valid() && buffer.Length == BufferLength(block) && remaining > 0
      requires Streaming(buffer[..], w, goal, image, file, prefix, block, fileLength,
                         offset, remaining, segment, cursor, base, span)
      requires chunk == Min(block, remaining) && (offset + chunk < |image| ==> Blocks(span - chunk, block))
      requires StreamRun(w, image[offset..], block, fileLength)
               == if chunk == remaining then (bus.State(), 0)
                  else StreamRun(bus.State(), image[offset..][chunk..], block, fileLength)
      modifies buffer
      ensures remaining' < remaining
      ensures Streaming(buffer[..], bus.State(), goal, image, file, prefix, block, fileLength,
                        offset', remaining', segment', cursor', base', span')
    {
      ghost var window := buffer[..];
      offset' := offset + chunk;
      remaining' := remaining - chunk;
      segment', cursor', base', span' := NextSegment(buffer, image, file, prefix, offset', segment, cursor, base, span - chunk);
      StreamingAdvances(window, buffer[..], w, bus.State(), goal, image, file, prefix, block, fileLength, offset, remaining,
                        segment, cursor, base, span, chunk, offset', remaining', segment', cursor', base', span');
    }

    /** The SEND_DATA command of one pass of the loop: the chunk is copied
     *  from the window behind the command byte and sent with SendCommand. */
    method SendChunk(buffer: array<Byte>, index: nat, chunk: nat, ghost data: seq<Byte>) returns (r: int)
      requires Valid() && buffer != packet
      requires chunk == Min(block, |data|) && index + chunk <= buffer.Length
      requires buffer[index..index + chunk] == data[..chunk]
      modifies bus, packet
      ensures StreamRun(old(bus.State()), data, block, fileLength)
              == if r < 0 then (bus.State(), -1)
                 else if chunk == |data| then (bus.State(), 0)
                 else StreamRun(bus.State(), data[chunk..], block, fileLength)
    {
      CopyChunk(buffer, index, chunk);
      ghost var w := bus.State();
      r := SendCommand(packet[..chunk + 1]);
      StreamStep(w, data, block, fileLength, chunk, bus.State(), r);
    }

    /** The end of one pass of the loop: when the next block would run past
     *  the window, the window is refilled from the file and, if the file
     *  had more to give, the segment counter advances. */
    method NextSegment(buffer: array<Byte>, ghost image: seq<Byte>, file: seq<Byte>, ghost prefix: nat,
                       offset: nat, segment: nat, cursor: nat, ghost base: nat, ghost span: nat)
      returns (segment': nat, cursor': nat, ghost base': nat, ghost span': nat)
      requires Valid() && buffer.Length == BufferLength(block)
      requires prefix + |file| == |image| && image[prefix..] == file && cursor <= |file|
      requires base == segment * buffer.Length && base <= offset <= |image|
      requires offset + span == base + buffer.Length
      requires offset < |image| ==> Blocks(span, block)
      requires prefix + cursor == Min(|image|, base + buffer.Length)
      requires Window(buffer[..], image, base)
      modifies buffer
      ensures base' == segment' * buffer.Length && base' <= offset && offset + span' == base' + buffer.Length
      ensures offset < |image| ==> Blocks(span', block) && span' >= block
      ensures prefix + cursor' == Min(|image|, base' + buffer.Length) && cursor' <= |file|
      ensures Window(buffer[..], image, base')
    {
      segment', cursor', base', span' := segment, cursor, base, span;
      NextWindow(segment, buffer.Length);
      if offset + block > buffer.Length * (segment + 1) {
        var n := Refill(buffer, image, file, prefix, base, cursor);
        cursor' := cursor + n;
        if n > 0 {
          segment' := segment + 1;
          base' := base + buffer.Length;
          span' := buffer.Length;
          WindowIsBlocks(block);
        }
      }
    }

    /** The refill of the file window: the next stretch of the application
     *  file is read over the start of the window (the fread of the streaming loop). */
    method Refill(buffer: array<Byte>, ghost image: seq<Byte>, file: seq<Byte>, ghost prefix: nat,
                  ghost base: nat, cursor: nat) returns (n: nat)
      requires prefix + |file| == |image| && image[prefix..] == file && cursor <= |file|
      requires prefix + cursor == Min(|image|, base + buffer.Length)
      requires Window(buffer[..], image, base)
      modifies buffer
      ensures n == FreadCount(|file| - cursor, buffer.Length)
      ensures n > 0 ==> prefix + cursor == base + buffer.Length && Window(buffer[..], image, base + buffer.Length)
      ensures n == 0 ==> buffer[..] == old(buffer[..])
    {
      ghost var before := buffer[..];
      n := ReadFile(buffer, 0, file, cursor, buffer.Length);
      if n > 0 {
        Refilled(before, buffer[..], image, file, prefix, base, cursor, n);
      } else {
        assert buffer[..] == before;
      }
    }

    /** memcpy(&g_pui8Buffer[1], &pui8FileBuffer[index], chunk) after the
     *  command byte SEND_DATA. */
    method CopyChunk(buffer: array<Byte>, index: nat, chunk: nat)
      requires Valid() && chunk < MAX_PAYLOAD && index + chunk <= buffer.Length && buffer != packet
      modifies packet
      ensures packet[..chunk + 1] == SendDataPayload(buffer[index..index + chunk])
    {
      packet[0] := COMMAND_SEND_DATA;
      forall k | 0 <= k < chunk {
        packet[1 + k] := buffer[index + k];
      }
      assert packet[..chunk + 1] == [COMMAND_SEND_DATA] + buffer[index..index + chunk];
    }
  }

  /** What holds at the top of the streaming loop: where the loop stands in
   *  the image, what the window holds, and that what is left to do on the
   *  bus, `StreamRun` of the rest of the image, ends where the whole stream
   *  ends (`goal`). */
  ghost predicate Streaming(window: seq<Byte>, w: Wire, goal: (Wire, int), image: seq<Byte>, file: seq<Byte>,
                            prefix: nat, block: nat, fileLength: nat,
                            offset: nat, remaining: nat, segment: nat, cursor: nat, base: nat, span: nat)
  {
    && BlockSize(block) && |window| == BufferLength(block)
    && prefix + |file| == |image| && image[prefix..] == file && cursor <= |file|
    && base == segment * |window|
    && offset + remaining == |image| && base <= offset && offset + span == base + |window|
    && (remaining > 0 ==> Blocks(span, block) && span >= block)
    && prefix + cursor == Min(|image|, base + |window|)
    && Window(window, image, base)
    && (remaining > 0 ==> StreamRun(w, image[offset..], block, fileLength) == goal)
    && (remaining == 0 ==> goal == (w, 0))
  }

  /** At the top of the loop the next chunk lies inside the window, and what
   *  is left of the window after it is still a whole number of blocks. */
  lemma ChunkInWindow(window: seq<Byte>, w: Wire, goal: (Wire, int), image: seq<Byte>, file: seq<Byte>,
                      prefix: nat, block: nat, fileLength: nat,
                      offset: nat, remaining: nat, segment: nat, cursor: nat, base: nat, span: nat)
    requires remaining > 0
    requires Streaming(window, w, goal, image, file, prefix, block, fileLength,
                       offset, remaining, segment, cursor, base, span)
    ensures var chunk := Min(block, remaining);
            && chunk == Min(block, |image[offset..]|) && chunk <= span
            && offset - segment * |window| + chunk <= |window|
            && window[offset - segment * |window|..offset - segment * |window| + chunk] == image[offset..][..chunk]
            && (offset + chunk < |image| ==> Blocks(span - chunk, block))
  {
    var chunk := Min(block, remaining);
    WindowSlice(window, image, base, offset, chunk);
  }

  /** At the top of the loop the segment counter is the number of the
   *  window the offset lies in, so it reaches 256 once the transfer is 256
   *  windows into the image. */
  lemma SegmentIsWindowNumber(window: seq<Byte>, w: Wire, goal: (Wire, int), image: seq<Byte>, file: seq<Byte>,
                              prefix: nat, block: nat, fileLength: nat,
                              offset: nat, remaining: nat, segment: nat, cursor: nat, base: nat, span: nat)
    requires remaining > 0
    requires Streaming(window, w, goal, image, file, prefix, block, fileLength,
                       offset, remaining, segment, cursor, base, span)
    ensures segment == offset / |window|
  {
    DivUnique(offset, |window|, segment);
  }

  /** The copy index of line 314 as written: fsegment is a uint8_t, so the
   *  window counter it subtracts is the true one modulo 256. */
  function AsWrittenIndex(offset: nat, segment: nat, bufferLength: nat): int
  {
    offset - (segment % 256) * bufferLength
  }

  /** As written, once the loop is 256 windows or more into the image the
   *  8-bit counter has wrapped, and the chunk the host copies starts a whole
   *  window or more past the start of the buffer, so it runs past its end;
   *  with the true counter it lies inside the window (ChunkInWindow). */
  lemma SegmentCounterWraps(window: seq<Byte>, w: Wire, goal: (Wire, int), image: seq<Byte>, file: seq<Byte>,
                            prefix: nat, block: nat, fileLength: nat,
                            offset: nat, remaining: nat, segment: nat, cursor: nat, base: nat, span: nat)
    requires remaining > 0 && segment >= 256
    requires Streaming(window, w, goal, image, file, prefix, block, fileLength,
                       offset, remaining, segment, cursor, base, span)
    ensures AsWrittenIndex(offset, segment, |window|) >= |window|
    ensures AsWrittenIndex(offset, segment, |window|) + Min(block, remaining) > |window|
  {
    var l := |window|;
    var low := segment % 256;
    var d := segment - low;
    assert d >= 1;
    assert segment * l == low * l + d * l;
    MulMono(1, d, l);
  }

  /** One pass of the loop keeps the loop invariant: the chunk went out,
   *  so the rest of the stream starts chunk bytes further on, and the window
   *  was refilled (or not) as the end of the pass says. */
  lemma StreamingAdvances(window: seq<Byte>, window': seq<Byte>, w: Wire, w': Wire, goal: (Wire, int),
                          image: seq<Byte>, file: seq<Byte>, prefix: nat, block: nat, fileLength: nat,
                          offset: nat, remaining: nat, segment: nat, cursor: nat, base: nat, span: nat,
                          chunk: nat, offset': nat, remaining': nat, segment': nat, cursor': nat, base': nat, span': nat)
    requires remaining > 0 && offset' == offset + chunk && remaining' == remaining - chunk
    requires Streaming(window, w, goal, image, file, prefix, block, fileLength,
                       offset, remaining, segment, cursor, base, span)
    requires chunk == Min(block, remaining) && |window'| == |window|
    requires StreamRun(w, image[offset..], block, fileLength)
             == if chunk == remaining then (w', 0) else StreamRun(w', image[offset..][chunk..], block, fileLength)
    requires base' == segment' * |window'| && base' <= offset' && offset' + span' == base' + |window'|
    requires offset' < |image| ==> Blocks(span', block) && span' >= block
    requires prefix + cursor' == Min(|image|, base' + |window'|)
    requires Window(window', image, base') && cursor' <= |file|
    ensures Streaming(window', w', goal, image, file, prefix, block, fileLength,
                      offset', remaining', segment', cursor', base', span')
  {
    if chunk < remaining {
      assert image[offset..][chunk..] == image[offset'..];
    }
  }

}

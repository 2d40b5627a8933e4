/**
 * The flash transfer of UpdateFlash (bmc_update_lib.c) as functions of the
 * inputs: the transfer plan (where the image goes, how long it is, what it
 * holds), the DOWNLOAD command, the chunks the image is streamed in, and the
 * bus traffic of the whole update.  BmcUpdateLib.Loader.UpdateFlash is proved
 * to do exactly what UpdateFlashRun says.
 *
 * Files are byte sequences; a missing file (a NULL FILE pointer) is None.
 */
module Transfer {

  import opened Optional
  import opened Protocol
  import opened Transport
  import opened Packets

  function Min(a: nat, b: nat): nat { if a < b then a else b }

  /** What the size of a chunk can be: SEND_DATA carries the chunk after its
   *  command byte, and a frame carries at most MAX_PAYLOAD bytes. */
  predicate BlockSize(block: nat)
  {
    0 < block < MAX_PAYLOAD
  }

  /** The host's file window: the largest multiple of the chunk size that fits
   *  in FILE_BUFFER_LENGTH. */
  function BufferLength(block: nat): (l: nat)
    requires BlockSize(block)
    ensures l % block == 0
    ensures FILE_BUFFER_LENGTH - block < l <= FILE_BUFFER_LENGTH
    ensures l >= BOOTLOADER_LENGTH + block
  {
    var q := FILE_BUFFER_LENGTH / block;
    assert FILE_BUFFER_LENGTH == q * block + FILE_BUFFER_LENGTH % block;
    MulMod(q, block);
    q * block
  }

  /** A multiple of b leaves no remainder. */
  lemma MulMod(q: nat, b: nat)
    requires b > 0
    ensures (q * b) % b == 0
  {
    DivUnique(q * b, b, q);
    assert q * b == b * ((q * b) / b) + (q * b) % b;
  }

  /** Division by b recovers the quotient of any number between two multiples of b. */
  lemma DivUnique(a: nat, b: nat, q: nat)
    requires b > 0 && q * b <= a < q * b + b
    ensures a / b == q
  {
    var d := a / b;
    assert a == d * b + a % b;
    assert (q + 1) * b == q * b + b;
    assert (d + 1) * b == d * b + b;
    MulOrder(q + 1, d, b);
    MulOrder(d + 1, q, b);
  }

  /** Multiplication by a natural number preserves order. */
  lemma MulOrder(a: nat, b: nat, c: nat)
    ensures a <= b ==> a * c <= b * c
  {
    if a <= b {
      MulMono(a, b, c);
    }
  }

  /** Multiplication by a natural number is monotonic. */
  lemma {:induction false} MulMono(a: nat, b: nat, c: nat)
    requires a <= b
    ensures a * c <= b * c
    decreases b - a
  {
    if a < b {
      MulMono(a, b - 1, c);
      assert b * c == (b - 1) * c + c;
    }
  }

  /** How many bytes fread delivers when asked for `count` of a file that has
   *  `available` bytes left. */
  function FreadCount(available: nat, count: nat): nat
  {
    Min(available, count)
  }

  /** The update that is planned: the flash address and length sent with
   *  DOWNLOAD, and the bytes that are then streamed. */
  datatype Transfer = Transfer(start: nat, length: nat, image: seq<Byte>)

  /** A boot loader image followed by erased flash up to the application address. */
  function BootPrefix(boot: seq<Byte>, address: nat): (p: seq<Byte>)
    requires |boot| <= address
    ensures |p| == address
    ensures p[..|boot|] == boot
    ensures forall i :: |boot| <= i < address ==> p[i] == ERASED
  {
    boot + seq(address - |boot|, _ => ERASED)
  }

  /** The inputs on which the source has defined behaviour: 32-bit quantities
   *  that do not wrap, and, with a boot loader, an application address that
   *  does not lie past the file window (memset and fread would write beyond
   *  the buffer). */
  predicate Defined(app: Option<seq<Byte>>, boot: Option<seq<Byte>>, address: nat, block: nat)
  {
    && BlockSize(block)
    && address < U32_LIMIT
    && (app.Some? ==> |app.value| < U32_LIMIT)
    && (app.Some? && boot.Some? && |boot.value| == BOOTLOADER_LENGTH && address >= BOOTLOADER_LENGTH ==>
          address + |app.value| < U32_LIMIT && address <= BufferLength(block))
  }

  /** The checks and the plan of UpdateFlash, up to the DOWNLOAD command. */
  function PlanTransfer(app: Option<seq<Byte>>, boot: Option<seq<Byte>>, address: nat, block: nat): (t: Option<Transfer>)
    requires Defined(app, boot, address, block)
    ensures t.Some? ==> 0 < |t.value.image| == t.value.length < U32_LIMIT && t.value.start < U32_LIMIT
    ensures t.Some? <==>
              && app.Some?
              && (boot.Some? ==>
                    |boot.value| == BOOTLOADER_LENGTH && BOOTLOADER_LENGTH <= address < BufferLength(block))
              && (boot.None? ==> !(|app.value| == BOOTLOADER_LENGTH && address != 0))
              && |app.value| > 0
    ensures t.Some? && boot.None? ==> t.value == Transfer(address, |app.value|, app.value)
    ensures t.Some? && boot.Some? ==>
              && t.value.start == 0
              && t.value.length == address + |app.value|
              && t.value.image[..BOOTLOADER_LENGTH] == boot.value
              && (forall i :: BOOTLOADER_LENGTH <= i < address ==> t.value.image[i] == ERASED)
              && t.value.image[address..] == app.value
  {
    if app.None? then None
    else if boot.Some? then
      if |boot.value| != BOOTLOADER_LENGTH then None
      else if address < BOOTLOADER_LENGTH then None
      else if FreadCount(|app.value|, BufferLength(block) - address) == 0 then None
      else
        var image := BootPrefix(boot.value, address) + app.value;
        assert image[..BOOTLOADER_LENGTH] == BootPrefix(boot.value, address)[..BOOTLOADER_LENGTH];
        assert image[address..] == app.value;
        Some(Transfer(0, address + |app.value|, image))
    else if |app.value| == BOOTLOADER_LENGTH && address != 0 then None
    else if FreadCount(|app.value|, BufferLength(block)) == 0 then None
    else Some(Transfer(address, |app.value|, app.value))
  }

  /** The DOWNLOAD command: start and length, each as four big-endian bytes. */
  function DownloadPayload(start: nat, length: nat): (p: seq<Byte>)
    requires start < U32_LIMIT && length < U32_LIMIT
    ensures |p| == 9 && p[0] == COMMAND_DOWNLOAD
    ensures FromBigEndian(p[1..5]) == start && FromBigEndian(p[5..9]) == length
  {
    var p := [COMMAND_DOWNLOAD] + BigEndian32(start) + BigEndian32(length);
    assert p[1..5] == BigEndian32(start);
    assert p[5..9] == BigEndian32(length);
    p
  }

  // ---------------------------------------------------------------- streaming

  /** Concatenation of a list of byte strings. */
  function Flatten(cs: seq<seq<Byte>>): seq<Byte>
  {
    if cs == [] then [] else cs[0] + Flatten(cs[1..])
  }

  /** The pieces the image leaves in: `block` bytes at a time, the last piece
   *  whatever remains.  The loop is a do/while, so an empty image still makes
   *  one (empty) piece. */
  function Chunks(data: seq<Byte>, block: nat): (cs: seq<seq<Byte>>)
    requires block > 0
    ensures |cs| >= 1 && Flatten(cs) == data
    ensures forall i :: 0 <= i < |cs| - 1 ==> |cs[i]| == block
    ensures 0 < |cs[|cs| - 1]| <= block || data == []
    decreases |data|
  {
    var c := Min(block, |data|);
    if c == |data| then [data]
    else
      var tail := Chunks(data[c..], block);
      assert data == data[..c] + data[c..];
      [data[..c]] + tail
  }

  /** The number of chunks is the number of blocks the image starts. */
  lemma {:induction false} ChunkCount(data: seq<Byte>, block: nat)
    requires block > 0 && |data| > 0
    ensures |Chunks(data, block)| == (|data| + block - 1) / block
    decreases |data|
  {
    var n := |data|;
    if n > block {
      ChunksStep(data, block);
      ChunkCount(data[block..], block);
      CeilStep(n, block);
    } else {
      DivUnique(n + block - 1, block, 1);
    }
  }

  /** The first chunk of an image longer than one block is a full block. */
  lemma ChunksStep(data: seq<Byte>, block: nat)
    requires 0 < block < |data|
    ensures Chunks(data, block) == [data[..block]] + Chunks(data[block..], block)
  {
  }

  /** One block more adds one to the number of blocks started. */
  lemma CeilStep(n: nat, b: nat)
    requires 0 < b < n
    ensures (n + b - 1) / b == (n - 1) / b + 1
  {
    var q := (n - 1) / b;
    assert n - 1 == q * b + (n - 1) % b;
    assert (q + 1) * b == q * b + b;
    DivUnique(n + b - 1, b, q + 1);
  }

  /** A SEND_DATA command carrying one chunk. */
  function SendDataPayload(chunk: seq<Byte>): seq<Byte>
  {
    [COMMAND_SEND_DATA] + chunk
  }

  /** The do/while loop of UpdateFlash over the image bytes still to go: one
   *  SEND_DATA command per chunk, stopping at the first that fails. */
  function StreamRun(w: Wire, data: seq<Byte>, block: nat, fileLength: nat): (Wire, int)
    requires BlockSize(block)
    decreases |data|
  {
    var c := Min(block, |data|);
    var (w1, r1) := SendCommandRun(w, SendDataPayload(data[..c]), fileLength);
    if r1 < 0 then (w1, -1)
    else if c == |data| then (w1, 0)
    else StreamRun(w1, data[c..], block, fileLength)
  }

  /** One pass of the streaming loop, with the outcome of its SEND_DATA command given. */
  lemma StreamStep(w: Wire, data: seq<Byte>, block: nat, fileLength: nat, chunk: nat, w1: Wire, r1: int)
    requires BlockSize(block) && chunk == Min(block, |data|)
    requires SendCommandRun(w, SendDataPayload(data[..chunk]), fileLength) == (w1, r1)
    ensures StreamRun(w, data, block, fileLength)
            == if r1 < 0 then (w1, -1)
               else if chunk == |data| then (w1, 0)
               else StreamRun(w1, data[chunk..], block, fileLength)
  {
  }

  /** UpdateFlash(hFile, hBootFile, ui32Address) against the bus, with the
   *  chunk size g_BlockTransferSize. */
  function UpdateFlashRun(w: Wire, app: Option<seq<Byte>>, boot: Option<seq<Byte>>, address: nat, block: nat): (Wire, int)
    requires Defined(app, boot, address, block)
  {
    var plan := PlanTransfer(app, boot, address, block);
    if plan.None? then (w, -1)
    else
      var t := plan.value;
      var (w1, r1) := SendCommandRun(w, DownloadPayload(t.start, t.length), |app.value|);
      if r1 < 0 then (w1, -1)
      else StreamRun(w1, t.image, block, |app.value|)
  }

  /** UpdateFlashRun once the plan is accepted, with the outcome of its DOWNLOAD command given. */
  lemma UpdateFlashSteps(w: Wire, app: Option<seq<Byte>>, boot: Option<seq<Byte>>, address: nat, block: nat,
                         w1: Wire, r1: int)
    requires Defined(app, boot, address, block) && PlanTransfer(app, boot, address, block).Some?
    requires var t := PlanTransfer(app, boot, address, block).value;
             SendCommandRun(w, DownloadPayload(t.start, t.length), |app.value|) == (w1, r1)
    ensures var t := PlanTransfer(app, boot, address, block).value;
            UpdateFlashRun(w, app, boot, address, block)
            == if r1 < 0 then (w1, -1) else StreamRun(w1, t.image, block, |app.value|)
  {
  }

  // ---------------------------------------------------------------- lemmas

  /** The SEND_DATA commands for a list of chunks. */
  function SendDataCommands(cs: seq<seq<Byte>>): (cmds: seq<seq<Byte>>)
    ensures |cmds| == |cs|
    ensures forall i :: 0 <= i < |cs| ==> cmds[i] == SendDataPayload(cs[i])
  {
    if cs == [] then [] else [SendDataPayload(cs[0])] + SendDataCommands(cs[1..])
  }

  /** Commands sent one after the other with SendCommand, stopping at the first failure. */
  function CommandsRun(w: Wire, cmds: seq<seq<Byte>>, fileLength: nat): (Wire, int)
    requires forall i :: 0 <= i < |cmds| ==> |cmds[i]| <= MAX_PAYLOAD
    decreases |cmds|
  {
    if cmds == [] then (w, 0)
    else
      var (w1, r1) := SendCommandRun(w, cmds[0], fileLength);
      if r1 < 0 then (w1, -1) else CommandsRun(w1, cmds[1..], fileLength)
  }

  /** The loop, which counts down the bytes still to go, sends exactly the
   *  SEND_DATA commands of the image's chunks, in order. */
  lemma {:induction false} StreamSendsChunks(w: Wire, data: seq<Byte>, block: nat, fileLength: nat)
    requires BlockSize(block)
    ensures StreamRun(w, data, block, fileLength) == CommandsRun(w, SendDataCommands(Chunks(data, block)), fileLength)
    decreases |data|
  {
    var cs := Chunks(data, block);
    var cmds := SendDataCommands(cs);
    var c := Min(block, |data|);
    var (w1, r1) := SendCommandRun(w, SendDataPayload(data[..c]), fileLength);
    assert cmds[0] == SendDataPayload(data[..c]);
    if c < |data| {
      ChunksStep(data, block);
      assert cmds[1..] == SendDataCommands(Chunks(data[c..], block));
      if r1 >= 0 {
        StreamSendsChunks(w1, data[c..], block, fileLength);
      }
    } else {
      assert cs == [data];
      assert cmds[1..] == [];
    }
  }

  /** One command of a sequence: the failure stops it, success goes on with the rest. */
  lemma CommandsStep(w: Wire, cmds: seq<seq<Byte>>, fileLength: nat, w1: Wire, r: int)
    requires |cmds| > 0 && forall i :: 0 <= i < |cmds| ==> |cmds[i]| <= MAX_PAYLOAD
    requires SendCommandRun(w, cmds[0], fileLength) == (w1, r)
    ensures CommandsRun(w, cmds, fileLength) == if r < 0 then (w1, -1) else CommandsRun(w1, cmds[1..], fileLength)
  {
  }

  /** What the host logs when every command of a sequence is accepted. */
  function CommandsLog(cmds: seq<seq<Byte>>, fileLength: nat): seq<Event>
    requires forall i :: 0 <= i < |cmds| ==> |cmds[i]| <= MAX_PAYLOAD
  {
    if cmds == [] then [] else CommandLog(cmds[0], fileLength) + CommandsLog(cmds[1..], fileLength)
  }

  /** CommandsLog of a sequence with one more command at its end. */
  lemma {:induction false} CommandsLogSnoc(cmds: seq<seq<Byte>>, c: seq<Byte>, fileLength: nat)
    requires |c| <= MAX_PAYLOAD && forall i :: 0 <= i < |cmds| ==> |cmds[i]| <= MAX_PAYLOAD
    ensures CommandsLog(cmds + [c], fileLength) == CommandsLog(cmds, fileLength) + CommandLog(c, fileLength)
    decreases |cmds|
  {
    if cmds == [] {
      assert [] + [c] == [c] && [c][1..] == [];
    } else {
      assert (cmds + [c])[0] == cmds[0] && (cmds + [c])[1..] == cmds[1..] + [c];
      CommandsLogSnoc(cmds[1..], c, fileLength);
    }
  }

  /** Commands that each succeed, the i-th taking the bus from ws[i] to
   *  ws[i + 1], leave the rest of the sequence to run on the bus they leave. */
  lemma {:induction false} CommandsPrefix(ws: seq<Wire>, cmds: seq<seq<Byte>>, fileLength: nat, k: nat)
    requires forall i :: 0 <= i < |cmds| ==> |cmds[i]| <= MAX_PAYLOAD
    requires k <= |cmds| && |ws| == k + 1
    requires forall i {:trigger SendCommandRun(ws[i], cmds[i], fileLength)} :: 0 <= i < k ==> SendCommandRun(ws[i], cmds[i], fileLength) == (ws[i + 1], 0)
    ensures CommandsRun(ws[0], cmds, fileLength) == CommandsRun(ws[k], cmds[k..], fileLength)
    decreases k
  {
    if k == 0 {
      assert cmds[0..] == cmds;
    } else {
      CommandsStep(ws[0], cmds, fileLength, ws[1], 0);
      forall i {:trigger SendCommandRun(ws[1..][i], cmds[1..][i], fileLength)} | 0 <= i < k - 1
        ensures SendCommandRun(ws[1..][i], cmds[1..][i], fileLength) == (ws[1..][i + 1], 0)
      {
        assert ws[1..][i] == ws[i + 1] && cmds[1..][i] == cmds[i + 1] && ws[1..][i + 1] == ws[i + 2];
      }
      CommandsPrefix(ws[1..], cmds[1..], fileLength, k - 1);
      assert cmds[1..][k - 1..] == cmds[k..];
    }
  }

  /** A device that accepts k commands in a row. */
  function Accepting(k: nat): seq<Outcome>
  {
    Repeat(CommandScript(COMMAND_RET_SUCCESS), k)
  }

  /** The first of k > 0 copies. */
  lemma RepeatHead<T>(s: seq<T>, k: nat, rest: seq<T>)
    requires k > 0
    ensures Repeat(s, k) + rest == s + (Repeat(s, k - 1) + rest)
  {
  }

  /** The bus after the first i of k accepted commands. */
  function AcceptingWire(cmds: seq<seq<Byte>>, fileLength: nat, k: nat, after: seq<Outcome>, log: seq<Event>, i: nat): Wire
    requires i <= k <= |cmds| && forall j :: 0 <= j < |cmds| ==> |cmds[j]| <= MAX_PAYLOAD
  {
    Wire(Accepting(k - i) + after, log + CommandsLog(cmds[..i], fileLength))
  }

  /** The first command sent to a device that accepts k > 0 commands. */
  lemma AcceptedHead(c: seq<Byte>, fileLength: nat, k: nat, after: seq<Outcome>, log: seq<Event>)
    requires |c| <= MAX_PAYLOAD && k > 0
    ensures SendCommandRun(Wire(Accepting(k) + after, log), c, fileLength)
            == (Wire(Accepting(k - 1) + after, log + CommandLog(c, fileLength)), 0)
  {
    RepeatHead(CommandScript(COMMAND_RET_SUCCESS), k, after);
    SendCommandWithDevice(c, fileLength, COMMAND_RET_SUCCESS, Accepting(k - 1) + after, log);
  }

  /** The bus after one more accepted command. */
  lemma AcceptingWireNext(cmds: seq<seq<Byte>>, fileLength: nat, k: nat, after: seq<Outcome>, log: seq<Event>, i: nat)
    requires i < k <= |cmds| && forall j :: 0 <= j < |cmds| ==> |cmds[j]| <= MAX_PAYLOAD
    ensures AcceptingWire(cmds, fileLength, k, after, log, i + 1)
            == Wire(Accepting(k - i - 1) + after, log + CommandsLog(cmds[..i], fileLength) + CommandLog(cmds[i], fileLength))
  {
    assert cmds[..i + 1] == cmds[..i] + [cmds[i]];
    CommandsLogSnoc(cmds[..i], cmds[i], fileLength);
  }

  /** The buses of the first k accepted commands, in order. */
  function AcceptingWires(cmds: seq<seq<Byte>>, fileLength: nat, k: nat, after: seq<Outcome>, log: seq<Event>): (ws: seq<Wire>)
    requires k <= |cmds| && forall j :: 0 <= j < |cmds| ==> |cmds[j]| <= MAX_PAYLOAD
    ensures |ws| == k + 1
    ensures forall i :: 0 <= i <= k ==> ws[i] == AcceptingWire(cmds, fileLength, k, after, log, i)
  {
    seq(k + 1, i requires 0 <= i <= k => AcceptingWire(cmds, fileLength, k, after, log, i))
  }

  /** Against a device that accepts the first k commands, those go out one
   *  full exchange after the other. */
  lemma CommandsAcceptedPrefix(cmds: seq<seq<Byte>>, fileLength: nat, k: nat, after: seq<Outcome>, log: seq<Event>)
    requires k <= |cmds| && forall j :: 0 <= j < |cmds| ==> |cmds[j]| <= MAX_PAYLOAD
    ensures CommandsRun(Wire(Accepting(k) + after, log), cmds, fileLength)
            == CommandsRun(Wire(after, log + CommandsLog(cmds[..k], fileLength)), cmds[k..], fileLength)
  {
    var ws := AcceptingWires(cmds, fileLength, k, after, log);
    assert ws[0] == Wire(Accepting(k) + after, log) by {
      assert cmds[..0] == [] && log + CommandsLog([], fileLength) == log;
    }
    assert ws[k] == Wire(after, log + CommandsLog(cmds[..k], fileLength)) by {
      assert Accepting(0) + after == after;
    }
    forall i {:trigger SendCommandRun(ws[i], cmds[i], fileLength)} | 0 <= i < k
      ensures SendCommandRun(ws[i], cmds[i], fileLength) == (ws[i + 1], 0)
    {
      AcceptingWireNext(cmds, fileLength, k, after, log, i);
      AcceptedHead(cmds[i], fileLength, k - i, after, log + CommandsLog(cmds[..i], fileLength));
    }
    CommandsPrefix(ws, cmds, fileLength, k);
  }

  /** Against a device that accepts them all, the commands go out one full
   *  exchange after the other and the sequence succeeds. */
  lemma CommandsAccepted(cmds: seq<seq<Byte>>, fileLength: nat, rest: seq<Outcome>, log: seq<Event>)
    requires forall i :: 0 <= i < |cmds| ==> |cmds[i]| <= MAX_PAYLOAD
    ensures CommandsRun(Wire(Accepting(|cmds|) + rest, log), cmds, fileLength)
            == (Wire(rest, log + CommandsLog(cmds, fileLength)), 0)
  {
    CommandsAcceptedPrefix(cmds, fileLength, |cmds|, rest, log);
    assert cmds[..|cmds|] == cmds && cmds[|cmds|..] == [];
  }

  /** When the device rejects the command after k accepted ones, the
   *  sequence fails at once: nothing after that command is sent. */
  lemma CommandsStopAtRejected(cmds: seq<seq<Byte>>, fileLength: nat, k: nat, s: Byte,
                               rest: seq<Outcome>, log: seq<Event>)
    requires forall i :: 0 <= i < |cmds| ==> |cmds[i]| <= MAX_PAYLOAD
    requires k < |cmds| && s != COMMAND_RET_SUCCESS
    ensures CommandsRun(Wire(Accepting(k) + (CommandScript(s) + rest), log), cmds, fileLength)
            == (Wire(rest, log + CommandsLog(cmds[..k + 1], fileLength)), -1)
  {
    var l := log + CommandsLog(cmds[..k], fileLength);
    var l' := l + CommandLog(cmds[k], fileLength);
    assert l' == log + CommandsLog(cmds[..k + 1], fileLength) by {
      assert cmds[..k + 1] == cmds[..k] + [cmds[k]];
      CommandsLogSnoc(cmds[..k], cmds[k], fileLength);
    }
    var wk := Wire(CommandScript(s) + rest, l);
    assert SendCommandRun(wk, cmds[k..][0], fileLength) == (Wire(rest, l'), -1) by {
      assert cmds[k..][0] == cmds[k];
      SendCommandWithDevice(cmds[k], fileLength, s, rest, l);
    }
    CommandsStep(wk, cmds[k..], fileLength, Wire(rest, l'), -1);
    CommandsAcceptedPrefix(cmds, fileLength, k, CommandScript(s) + rest, log);
  }

  /** A plan that is rejected costs no bus traffic at all. */
  lemma RejectedPlanIsSilent(w: Wire, app: Option<seq<Byte>>, boot: Option<seq<Byte>>, address: nat, block: nat)
    requires Defined(app, boot, address, block)
    requires PlanTransfer(app, boot, address, block).None?
    ensures UpdateFlashRun(w, app, boot, address, block) == (w, -1)
  {
  }

  /** The commands of an accepted plan: DOWNLOAD, then one SEND_DATA per chunk. */
  function UpdateCommands(t: Transfer, block: nat): (cmds: seq<seq<Byte>>)
    requires BlockSize(block) && t.start < U32_LIMIT && t.length < U32_LIMIT
    ensures forall i :: 0 <= i < |cmds| ==> |cmds[i]| <= MAX_PAYLOAD
  {
    [DownloadPayload(t.start, t.length)] + SendDataCommands(Chunks(t.image, block))
  }

  /** An accepted plan is carried out as its command sequence, on any bus:
   *  the update fails at the first command that fails. */
  lemma UpdateFlashSendsCommands(w: Wire, app: Option<seq<Byte>>, boot: Option<seq<Byte>>, address: nat, block: nat)
    requires Defined(app, boot, address, block)
    requires PlanTransfer(app, boot, address, block).Some?
    ensures var t := PlanTransfer(app, boot, address, block).value;
            UpdateFlashRun(w, app, boot, address, block) == CommandsRun(w, UpdateCommands(t, block), |app.value|)
  {
    var t := PlanTransfer(app, boot, address, block).value;
    var cmds := UpdateCommands(t, block);
    var (w1, r1) := SendCommandRun(w, DownloadPayload(t.start, t.length), |app.value|);
    CommandsStep(w, cmds, |app.value|, w1, r1);
    assert cmds[1..] == SendDataCommands(Chunks(t.image, block));
    StreamSendsChunks(w1, t.image, block, |app.value|);
  }

  /** A whole update against a device that accepts everything: every command
   *  of the plan goes out, each answered, and the update succeeds. */
  lemma UpdateFlashSucceeds(app: Option<seq<Byte>>, boot: Option<seq<Byte>>, address: nat, block: nat,
                            rest: seq<Outcome>, log: seq<Event>)
    requires Defined(app, boot, address, block)
    requires PlanTransfer(app, boot, address, block).Some?
    ensures var cmds := UpdateCommands(PlanTransfer(app, boot, address, block).value, block);
            UpdateFlashRun(Wire(Accepting(|cmds|) + rest, log), app, boot, address, block)
            == (Wire(rest, log + CommandsLog(cmds, |app.value|)), 0)
  {
    var cmds := UpdateCommands(PlanTransfer(app, boot, address, block).value, block);
    UpdateFlashSendsCommands(Wire(Accepting(|cmds|) + rest, log), app, boot, address, block);
    CommandsAccepted(cmds, |app.value|, rest, log);
  }

  /** A DOWNLOAD that the device answers with a failure status ends the update
   *  at once: nothing of the image is sent. */
  lemma UpdateFlashStopsAtFailedDownload(app: Option<seq<Byte>>, boot: Option<seq<Byte>>, address: nat, block: nat,
                                         s: Byte, rest: seq<Outcome>, log: seq<Event>)
    requires Defined(app, boot, address, block)
    requires PlanTransfer(app, boot, address, block).Some? && s != COMMAND_RET_SUCCESS
    ensures var t := PlanTransfer(app, boot, address, block).value;
            UpdateFlashRun(Wire(CommandScript(s) + rest, log), app, boot, address, block)
            == (Wire(rest, log + CommandLog(DownloadPayload(t.start, t.length), |app.value|)), -1)
  {
    var t := PlanTransfer(app, boot, address, block).value;
    SendCommandWithDevice(DownloadPayload(t.start, t.length), |app.value|, s, rest, log);
  }

  /** The DOWNLOAD command is the one packet whose acknowledgement is waited
   *  for: on any bus that takes its frame, every read of the poll — at least
   *  one — comes after a wait of 9 ms per started KiB of the application. */
  lemma DownloadWaitsForErase(w: Wire, start: nat, length: nat, fileLength: nat)
    requires start < U32_LIMIT && length < U32_LIMIT
    ensures var p := DownloadPayload(start, length);
            var w' := SendPacketRun(w, p, true, fileLength).0;
            DoneRun(w.script, 3) == 3 ==>
              && |w.script| >= 3 && PollReads(w.script[3..], w'.script) >= 1
              && w'.log == w.log + FrameLog(p)
                           + Repeat([Delay((fileLength / 0x400 + 1) * 9), Received],
                                    PollReads(w.script[3..], w'.script))
  {
    SendPacketWithAck(w, DownloadPayload(start, length), fileLength);
  }

  /** A SEND_DATA packet is polled for at once: on any bus that takes its
   *  frame, the poll's reads — at least one — follow each other with no wait. */
  lemma SendDataDoesNotWait(w: Wire, chunk: seq<Byte>, fileLength: nat)
    requires |chunk| < MAX_PAYLOAD
    ensures var p := SendDataPayload(chunk);
            var w' := SendPacketRun(w, p, true, fileLength).0;
            DoneRun(w.script, 3) == 3 ==>
              && |w.script| >= 3 && PollReads(w.script[3..], w'.script) >= 1
              && w'.log == w.log + FrameLog(p) + Repeat([Received], PollReads(w.script[3..], w'.script))
  {
    SendPacketWithAck(w, SendDataPayload(chunk), fileLength);
  }

  // ---------------------------------------------------------------- the file window

  /** The file window, filled for the image positions from `base` on, holds
   *  the image bytes it covers. */
  predicate Window(window: seq<Byte>, image: seq<Byte>, base: nat)
  {
    forall i :: 0 <= i < |window| && base + i < |image| ==> window[i] == image[base + i]
  }

  /** x is a whole number of blocks. */
  predicate Blocks(x: nat, block: nat)
    requires block > 0
    decreases x
  {
    x == 0 || (x >= block && Blocks(x - block, block))
  }

  /** q blocks are a whole number of blocks. */
  lemma {:induction false} BlocksOfMultiple(q: nat, block: nat)
    requires block > 0
    ensures Blocks(q * block, block)
  {
    if q > 0 {
      assert q * block - block == (q - 1) * block;
      BlocksOfMultiple(q - 1, block);
    }
  }

  /** The window is a whole number of blocks. */
  lemma WindowIsBlocks(block: nat)
    requires BlockSize(block)
    ensures Blocks(BufferLength(block), block)
  {
    var q := FILE_BUFFER_LENGTH / block;
    BlocksOfMultiple(q, block);
  }

  /** The window after segment `segment` starts one window length further on. */
  lemma NextWindow(segment: nat, bufferLength: nat)
    ensures bufferLength * (segment + 1) == segment * bufferLength + bufferLength
  {
  }

  /** A chunk copied from inside the window is the stretch of the image it covers. */
  lemma WindowSlice(window: seq<Byte>, image: seq<Byte>, base: nat, offset: nat, chunk: nat)
    requires Window(window, image, base)
    requires base <= offset && offset + chunk <= base + |window| && offset + chunk <= |image|
    ensures window[offset - base..offset - base + chunk] == image[offset..][..chunk]
  {
  }

  /** Refilling the window with the next stretch of the application file
   *  moves it one window length further along the image. */
  lemma Refilled(before: seq<Byte>, after: seq<Byte>, image: seq<Byte>, file: seq<Byte>,
                 prefix: nat, base: nat, cursor: nat, n: nat)
    requires |after| == |before| && prefix + |file| == |image| && image[prefix..] == file
    requires prefix + cursor == base + |before| && cursor <= |file|
    requires n == FreadCount(|file| - cursor, |before|)
    requires forall i :: 0 <= i < |after| ==> after[i] == if i < n then file[cursor + i] else before[i]
    ensures Window(after, image, base + |before|)
  {
    forall i | 0 <= i < |after| && base + |before| + i < |image|
      ensures after[i] == image[base + |before| + i]
    {
      assert image[base + |before| + i] == image[prefix..][cursor + i];
    }
  }

}

/**
 * The updater session of ad_bmc_updater.c: enter the boot loader, update the
 * application, then start it (RUN) or reset the device (RESET).  The two
 * addresses the session uses are the file's static globals; they are a
 * Config value here so that both final commands can be reasoned about.
 */
module AdBmcUpdater {

  import opened Optional
  import opened Protocol
  import opened Transport
  import opened Packets
  import opened Transfer
  import opened BmcUpdateLib

  /** g_ui32DownloadAddress and g_ui32StartAddress. */
  datatype Config = Config(downloadAddress: nat, startAddress: nat)

  /** The values the globals start with. */
  const DEFAULTS := Config(0x2000, 0x2004)

  /** g_BlockTransferSize's initial value: 28 image bytes per SEND_DATA command. */
  const DEFAULT_BLOCK_TRANSFER_SIZE: nat := 0x1c

  /** The start address that means "do not run, reset instead". */
  const NO_START_ADDRESS: nat := 0xffff_ffff

  /** Both addresses are uint32_t values. */
  predicate ValidConfig(config: Config)
  {
    config.downloadAddress < U32_LIMIT && config.startAddress < U32_LIMIT
  }

  /** The command that ends a session: RUN with the start address, most
   *  significant byte first, or RESET when there is no start address. */
  function FinalPayload(start: nat): (p: seq<Byte>)
    requires start < U32_LIMIT
    ensures start != NO_START_ADDRESS ==> |p| == 5 && p[0] == COMMAND_RUN && FromBigEndian(p[1..]) == start
    ensures start == NO_START_ADDRESS ==> p == [COMMAND_RESET]
    ensures |p| <= MAX_PAYLOAD
  {
    if start != NO_START_ADDRESS then
      var p := [COMMAND_RUN] + BigEndian32(start);
      assert p[1..] == BigEndian32(start);
      p
    else [COMMAND_RESET]
  }

  /** RunBMCUpdater against the bus.  `fileLength` is g_ui32FileLength when
   *  the session starts; UpdateFlash sets it to the application's size. */
  function SessionRun(w: Wire, config: Config, app: Option<seq<Byte>>, block: nat, fileLength: nat): (Wire, int)
    requires ValidConfig(config) && Defined(app, None, config.downloadAddress, block)
  {
    var (w1, r1) := EnterBootloaderRun(w, [COMMAND_ENTER_BOOTLOADER], fileLength);
    if r1 < 0 then (w1, -1)
    else
      var (w2, r2) := UpdateFlashRun(w1, app, None, config.downloadAddress, block);
      if r2 < 0 then (w2, -1)
      else
        var (w3, _) := SendPacketRun(w2, FinalPayload(config.startAddress), true, |app.value|);
        (w3, 0)
  }

  /** RunBMCUpdater(hApplFile): g_pui8Buffer is written in place before each
   *  command that is built in it.  A NULL file is None. */
  method RunBmcUpdater(loader: Loader, config: Config, app: Option<seq<Byte>>) returns (r: int)
    requires loader.Valid() && ValidConfig(config) && Defined(app, None, config.downloadAddress, loader.block)
    modifies loader, loader.bus, loader.packet
    ensures (loader.bus.State(), r)
            == SessionRun(old(loader.bus.State()), config, app, loader.block, old(loader.fileLength))
    ensures loader.fileLength
            == if EnterBootloaderRun(old(loader.bus.State()), [COMMAND_ENTER_BOOTLOADER], old(loader.fileLength)).1 < 0
                  || app.None?
               then old(loader.fileLength) else |app.value|
  {
    ghost var w0 := loader.bus.State();
    loader.packet[0] := COMMAND_ENTER_BOOTLOADER;
    assert loader.packet[..1] == [COMMAND_ENTER_BOOTLOADER];
    var r1 := loader.EnterBootloader(loader.packet[..1]);
    ghost var w1 := loader.bus.State();
    if r1 < 0 {
      SessionSteps(w0, config, app, loader.block, old(loader.fileLength), w1, r1, w1, 0, w1, 0);
      return -1;
    }
    var r2 := loader.UpdateFlash(app, None, config.downloadAddress);
    ghost var w2 := loader.bus.State();
    if r2 < 0 {
      SessionSteps(w0, config, app, loader.block, old(loader.fileLength), w1, r1, w2, r2, w2, 0);
      return -1;
    }
    var size := BuildFinal(loader, config.startAddress);
    var r3 := loader.SendPacket(loader.packet[..size], true);
    SessionSteps(w0, config, app, loader.block, old(loader.fileLength), w1, r1, w2, r2, loader.bus.State(), r3);
    return 0;
  }

  /** The RUN command, or the RESET command, written into g_pui8Buffer. */
  method BuildFinal(loader: Loader, start: nat) returns (size: nat)
    requires loader.Valid() && start < U32_LIMIT
    modifies loader.packet
    ensures size <= 5 && loader.packet[..size] == FinalPayload(start)
  {
    if start != NO_START_ADDRESS {
      loader.packet[0] := COMMAND_RUN;
      loader.packet[1] := (start / 0x100_0000) % 0x100;
      loader.packet[2] := (start / 0x1_0000) % 0x100;
      loader.packet[3] := (start / 0x100) % 0x100;
      loader.packet[4] := start % 0x100;
      size := 5;
    } else {
      loader.packet[0] := COMMAND_RESET;
      size := 1;
    }
  }

  /** SessionRun with the outcome of each of its three steps given. */
  lemma SessionSteps(w: Wire, config: Config, app: Option<seq<Byte>>, block: nat, fileLength: nat,
                     w1: Wire, r1: int, w2: Wire, r2: int, w3: Wire, r3: int)
    requires ValidConfig(config) && Defined(app, None, config.downloadAddress, block)
    requires EnterBootloaderRun(w, [COMMAND_ENTER_BOOTLOADER], fileLength) == (w1, r1)
    requires r1 >= 0 ==> UpdateFlashRun(w1, app, None, config.downloadAddress, block) == (w2, r2)
    requires r1 >= 0 && r2 >= 0 ==>
               app.Some? && SendPacketRun(w2, FinalPayload(config.startAddress), true, |app.value|) == (w3, r3)
    ensures SessionRun(w, config, app, block, fileLength)
            == if r1 < 0 then (w1, -1) else if r2 < 0 then (w2, -1) else (w3, 0)
  {
  }

  // ---------------------------------------------------------------- lemmas

  /** With the default start address the session ends with the RUN command
   *  [0x22, 0x00, 0x00, 0x20, 0x04]. */
  lemma DefaultFinalPayloadIsRun()
    ensures ValidConfig(DEFAULTS)
    ensures FinalPayload(DEFAULTS.startAddress) == [COMMAND_RUN, 0x00, 0x00, 0x20, 0x04]
  {
    var p := FinalPayload(DEFAULTS.startAddress);
    assert p == [COMMAND_RUN] + BigEndian32(0x2004);
  }

  /** The default chunk size is one a SEND_DATA frame can carry. */
  lemma DefaultBlockTransferSizeFits()
    ensures BlockSize(DEFAULT_BLOCK_TRANSFER_SIZE)
    ensures BufferLength(DEFAULT_BLOCK_TRANSFER_SIZE) == 0x7ff8
  {
    DivUnique(FILE_BUFFER_LENGTH, DEFAULT_BLOCK_TRANSFER_SIZE, 1170);
  }

  /** When EnterBootloader fails — at the raw entry, at GET_STATUS or at the
   *  status read — the session ends with -1 on the bus EnterBootloader left:
   *  UpdateFlash never starts, and no RUN or RESET is sent. */
  lemma SessionStopsWhenEnterFails(w: Wire, config: Config, app: Option<seq<Byte>>, block: nat, fileLength: nat)
    requires ValidConfig(config) && Defined(app, None, config.downloadAddress, block)
    requires EnterBootloaderRun(w, [COMMAND_ENTER_BOOTLOADER], fileLength).1 < 0
    ensures SessionRun(w, config, app, block, fileLength)
            == (EnterBootloaderRun(w, [COMMAND_ENTER_BOOTLOADER], fileLength).0, -1)
  {
  }

  /** Once in the boot loader, a failed update ends the session with -1 and
   *  no RUN or RESET command: the bus is left as UpdateFlash left it. */
  lemma SessionStopsWhenUpdateFails(w: Wire, config: Config, app: Option<seq<Byte>>, block: nat, fileLength: nat)
    requires ValidConfig(config) && Defined(app, None, config.downloadAddress, block)
    requires EnterBootloaderRun(w, [COMMAND_ENTER_BOOTLOADER], fileLength).1 >= 0
    requires var w1 := EnterBootloaderRun(w, [COMMAND_ENTER_BOOTLOADER], fileLength).0;
             UpdateFlashRun(w1, app, None, config.downloadAddress, block).1 < 0
    ensures var w1 := EnterBootloaderRun(w, [COMMAND_ENTER_BOOTLOADER], fileLength).0;
            SessionRun(w, config, app, block, fileLength)
            == (UpdateFlashRun(w1, app, None, config.downloadAddress, block).0, -1)
  {
  }

  /** On any bus the session succeeds exactly when EnterBootloader and then
   *  UpdateFlash succeed; the final RUN or RESET packet never decides it. */
  lemma SessionSucceedsIff(w: Wire, config: Config, app: Option<seq<Byte>>, block: nat, fileLength: nat)
    requires ValidConfig(config) && Defined(app, None, config.downloadAddress, block)
    ensures var (w1, r1) := EnterBootloaderRun(w, [COMMAND_ENTER_BOOTLOADER], fileLength);
            SessionRun(w, config, app, block, fileLength).1 == 0
            <==> r1 >= 0 && UpdateFlashRun(w1, app, None, config.downloadAddress, block).1 >= 0
    ensures SessionRun(w, config, app, block, fileLength).1 in {0, -1}
  {
  }

  /** A session whose update was rejected before any command (no file, an
   *  empty one, or a boot-loader-sized one at a nonzero address) costs only
   *  the entry round trip. */
  lemma SessionWithRejectedPlan(w: Wire, config: Config, app: Option<seq<Byte>>, block: nat, fileLength: nat)
    requires ValidConfig(config) && Defined(app, None, config.downloadAddress, block)
    requires PlanTransfer(app, None, config.downloadAddress, block).None?
    ensures var (w1, r1) := EnterBootloaderRun(w, [COMMAND_ENTER_BOOTLOADER], fileLength);
            SessionRun(w, config, app, block, fileLength) == (w1, -1)
  {
    var (w1, r1) := EnterBootloaderRun(w, [COMMAND_ENTER_BOOTLOADER], fileLength);
    RejectedPlanIsSilent(w1, app, None, config.downloadAddress, block);
  }

  /** Once the update succeeded the session reports 0, whatever happens to
   *  the final RUN or RESET packet; that packet is sent with acknowledgement. */
  lemma SessionIgnoresFinalPacket(w: Wire, config: Config, app: Option<seq<Byte>>, block: nat, fileLength: nat)
    requires ValidConfig(config) && Defined(app, None, config.downloadAddress, block)
    requires EnterBootloaderRun(w, [COMMAND_ENTER_BOOTLOADER], fileLength).1 >= 0
    requires var w1 := EnterBootloaderRun(w, [COMMAND_ENTER_BOOTLOADER], fileLength).0;
             UpdateFlashRun(w1, app, None, config.downloadAddress, block).1 >= 0
    ensures app.Some?
    ensures var w1 := EnterBootloaderRun(w, [COMMAND_ENTER_BOOTLOADER], fileLength).0;
            var w2 := UpdateFlashRun(w1, app, None, config.downloadAddress, block).0;
            SessionRun(w, config, app, block, fileLength)
            == (SendPacketRun(w2, FinalPayload(config.startAddress), true, |app.value|).0, 0)
  {
  }

  /** A whole session with the default settings against a device that
   *  answers everything, except that the bus fails under the final RUN
   *  packet: every command of the update goes out, the RUN frame's first write
   *  is attempted, and the session still reports success. */
  lemma DefaultSessionSucceeds(app: seq<Byte>, s: Byte, log: seq<Event>)
    requires Defined(Some(app), None, DEFAULTS.downloadAddress, DEFAULT_BLOCK_TRANSFER_SIZE)
    requires PlanTransfer(Some(app), None, DEFAULTS.downloadAddress, DEFAULT_BLOCK_TRANSFER_SIZE).Some?
    ensures ValidConfig(DEFAULTS)
    ensures var t := PlanTransfer(Some(app), None, DEFAULTS.downloadAddress, DEFAULT_BLOCK_TRANSFER_SIZE).value;
            var cmds := UpdateCommands(t, DEFAULT_BLOCK_TRANSFER_SIZE);
            var entered := log + [Raw(COMMAND_ENTER_BOOTLOADER, [])] + PacketLog([COMMAND_GET_STATUS], 0) + StatusLog;
            SessionRun(Wire([WriteOk] + AckedScript + StatusScript(s) + Accepting(|cmds|), log),
                       DEFAULTS, Some(app), DEFAULT_BLOCK_TRANSFER_SIZE, 0)
            == (Wire([], entered + CommandsLog(cmds, |app|) + [Sent([|FinalPayload(0x2004)| + 2])]), 0)
  {
    var block := DEFAULT_BLOCK_TRANSFER_SIZE;
    var t := PlanTransfer(Some(app), None, DEFAULTS.downloadAddress, block).value;
    var cmds := UpdateCommands(t, block);
    var entered := log + [Raw(COMMAND_ENTER_BOOTLOADER, [])] + PacketLog([COMMAND_GET_STATUS], 0) + StatusLog;
    var script := [WriteOk] + AckedScript + StatusScript(s) + Accepting(|cmds|);
    assert script == [WriteOk] + AckedScript + StatusScript(s) + (Accepting(|cmds|) + []);
    EnterBootloaderIgnoresStatus(s, 0, Accepting(|cmds|) + [], log);
    UpdateFlashSucceeds(Some(app), None, DEFAULTS.downloadAddress, block, [], entered);
    assert Accepting(|cmds|) + [] == Accepting(|cmds|);
    var updated := Wire([], entered + CommandsLog(cmds, |app|));
    var final := FinalPayload(0x2004);
    assert SendPacketRun(updated, final, true, |app|) == (Wire([], updated.log + [Sent([|final| + 2])]), -1);
  }

}

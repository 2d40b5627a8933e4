/**
 * What the packet codec and the handshake of bmc_update_lib.c do to the bus,
 * as functions of the bus state.  Each "…Run" function is the specification
 * that the corresponding method of BmcUpdateLib.Loader is proved to meet; the
 * lemmas state what the code promises about framing, acknowledgement, status
 * handling and failure.
 *
 * Reads: I2CReceiveData copies the whole reply into the destination whatever
 * size was asked for.  The model keeps that: a read into a destination of
 * known prior contents leaves `Overlay(dest, reply)`, and bytes the host then
 * reads past both the reply and the destination (stack garbage in C) are
 * taken as zero.  Locals the source reads before any assignment (the length
 * byte, the checksum byte, the acknowledgement word) start at zero.
 */
module Packets {

  import opened Optional
  import opened Protocol
  import opened Transport

  // ---------------------------------------------------------------- bytes in memory

  function Max(a: nat, b: nat): nat { if a < b then b else a }

  /** Memory at the destination after a read copied `reply` over `dest`. */
  function Overlay(dest: seq<Byte>, reply: seq<Byte>): (m: seq<Byte>)
    ensures |m| == Max(|dest|, |reply|)
    ensures m[..|reply|] == reply
    ensures forall i :: |reply| <= i < |dest| ==> m[i] == dest[i]
  {
    if |reply| >= |dest| then reply else reply + dest[|reply|..]
  }

  /** The first n bytes of memory m; bytes beyond m read as zero. */
  function Take(m: seq<Byte>, n: nat): (r: seq<Byte>)
    ensures |r| == n
    ensures n <= |m| ==> r == m[..n]
  {
    if n <= |m| then m[..n] else m + Zeros(n - |m|)
  }

  /** k zero bytes. */
  function Zeros(k: nat): (z: seq<Byte>)
    ensures |z| == k
    ensures forall i :: 0 <= i < k ==> z[i] == 0
  {
    if k == 0 then [] else [0] + Zeros(k - 1)
  }

  /** A one-byte variable holding v after a read delivered `reply` into it. */
  function Load(v: Byte, reply: seq<Byte>): Byte
  {
    Overlay([v], reply)[0]
  }

  const Zero4: seq<Byte> := [0, 0, 0, 0]

  // ---------------------------------------------------------------- SendPacket

  /** The log of the three writes that put a payload on the wire: the length
   *  byte (payload size plus 2), the checksum byte, then the payload. */
  function FrameLog(p: seq<Byte>): seq<Event>
    requires |p| <= MAX_PAYLOAD
  {
    [Sent([|p| + 2]), Sent([Sum8(p)]), Sent(p)]
  }

  /** The wait that precedes each acknowledgement poll: only for a DOWNLOAD
   *  packet, 9 ms per started KiB of the application file (g_ui32FileLength). */
  function AckDelay(p: seq<Byte>, fileLength: nat): Option<nat>
  {
    if |p| > 0 && p[0] == COMMAND_DOWNLOAD then Some((fileLength / 0x400 + 1) * 9) else None
  }

  /** Polls for the acknowledgement word until it is nonzero; success when its
   *  second byte (`(uint8_t)(ui32Ack >> 8)`) is ACK. */
  function PollAck(w: Wire, word: seq<Byte>, delay: Option<nat>): (Wire, int)
    requires |word| == 4
    decreases |w.script|
  {
    var w1 := if delay.Some? then WaitOn(w, delay.value) else w;
    var (reply, w2) := ReceiveOn(w1);
    if reply.None? then (w2, -1)
    else
      var word' := Overlay(word, reply.value)[..4];
      if word' == Zero4 then PollAck(w2, word', delay)
      else (w2, if word'[1] == COMMAND_ACK then 0 else -1)
  }

  /** SendPacket(payload, size, bAck). */
  function SendPacketRun(w: Wire, p: seq<Byte>, ack: bool, fileLength: nat): (Wire, int)
    requires |p| <= MAX_PAYLOAD
  {
    var (ok1, w1) := SendOn(w, [|p| + 2]);
    if !ok1 then (w1, -1)
    else
      var (ok2, w2) := SendOn(w1, [Sum8(p)]);
      if !ok2 then (w2, -1)
      else
        var (ok3, w3) := SendOn(w2, p);
        if !ok3 then (w3, -1)
        else if !ack then (w3, 0)
        else PollAck(w3, Zero4, AckDelay(p, fileLength))
  }

  // ---------------------------------------------------------------- GetPacket

  /** What GetPacket leaves behind: the bus, its return value, the caller's
   *  destination bytes and the size it reports through pui8Size. */
  datatype Reception = Reception(wire: Wire, status: int, dest: seq<Byte>, size: Byte)

  /** Reads the length byte again and again while it reads as zero. */
  function PollLength(w: Wire, size: Byte): (Wire, Option<Byte>)
    decreases |w.script|
  {
    var (reply, w1) := ReceiveOn(w);
    if reply.None? then (w1, None)
    else
      var size' := Load(size, reply.value);
      if size' == 0 then PollLength(w1, size') else (w1, Some(size'))
  }

  /** The payload size a length byte announces, `ui8Length - 2` in 8 bits. */
  function FrameSize(length: Byte): Byte
  {
    if length >= 2 then length - 2 else length + 254
  }

  /** AckPacket and NakPacket: one byte written; 0 when the write succeeded. */
  function ReplyRun(w: Wire, token: Byte): (Wire, int)
  {
    var (ok, w1) := SendOn(w, [token]);
    (w1, if ok then 0 else -1)
  }

  /** GetPacket(pui8Data, pui8Size), the destination holding `dest` and
   *  *pui8Size holding `size` on entry. */
  function GetPacketRun(w: Wire, dest: seq<Byte>, size: Byte): (g: Reception)
    ensures |g.dest| == |dest|
  {
    var (w1, length) := PollLength(w, 0);
    if length.None? then Reception(w1, -1, dest, size)
    else
      var (sum, w2) := ReceiveOn(w1);
      if sum.None? then Reception(w2, -1, dest, size)
      else ReadPayload(w2, FrameSize(length.value), Load(0, sum.value), dest)
  }

  /** The rest of GetPacket once the length byte and the checksum byte are in:
   *  the payload read, the checksum comparison and the ACK or NAK. */
  function ReadPayload(w: Wire, n: Byte, sum: Byte, dest: seq<Byte>): (g: Reception)
    ensures |g.dest| == |dest|
  {
    var (data, w1) := ReceiveOn(w);
    if data.None? then Reception(w1, -1, dest, 0)
    else
      var memory := Overlay(dest, data.value);
      if Sum8(Take(memory, n)) != sum then
        var (w2, r) := ReplyRun(w1, COMMAND_NAK);
        Reception(w2, r, memory[..|dest|], 0)
      else
        var (w2, r) := ReplyRun(w1, COMMAND_ACK);
        Reception(w2, r, memory[..|dest|], n)
  }

  // ---------------------------------------------------------------- handshake

  /** SendCommand(command, size): the command, a GET_STATUS packet, then the
   *  status packet, which must hold SUCCESS. */
  function SendCommandRun(w: Wire, command: seq<Byte>, fileLength: nat): (Wire, int)
    requires |command| <= MAX_PAYLOAD
  {
    var (w1, r1) := SendPacketRun(w, command, true, fileLength);
    if r1 < 0 then (w1, -1)
    else
      var (w2, r2) := SendPacketRun(w1, [COMMAND_GET_STATUS], true, fileLength);
      if r2 < 0 then (w2, -1)
      else
        var g := GetPacketRun(w2, [COMMAND_GET_STATUS], 1);
        if g.status < 0 then (g.wire, -1)
        else if g.dest[0] != COMMAND_RET_SUCCESS then (g.wire, -1)
        else (g.wire, 0)
  }

  /** EnterBootloader(command, size): the raw entry, then the same status
   *  round trip as SendCommand, whose status byte is never looked at. */
  function EnterBootloaderRun(w: Wire, command: seq<Byte>, fileLength: nat): (Wire, int)
    requires |command| >= 1
  {
    var (ok, w1) := EnterOn(w, command[0], command[1..]);
    if !ok then (w1, -1)
    else
      var (w2, r2) := SendPacketRun(w1, [COMMAND_GET_STATUS], true, fileLength);
      if r2 < 0 then (w2, -1)
      else
        var g := GetPacketRun(w2, [COMMAND_GET_STATUS], 1);
        if g.status < 0 then (g.wire, -1) else (g.wire, 0)
  }

  // ---------------------------------------------------------------- scripted devices

  /** k consecutive copies of a sequence. */
  function Repeat<T>(s: seq<T>, k: nat): seq<T>
  {
    if k == 0 then [] else s + Repeat(s, k - 1)
  }

  /** The events of one acknowledgement poll. */
  function PollEvents(delay: Option<nat>): seq<Event>
  {
    if delay.Some? then [Delay(delay.value), Received] else [Received]
  }

  /** A write the bus accepts; a reply that acknowledges a packet. */
  const WriteOk: Outcome := Done([])
  const AckReply: Outcome := Done([0, COMMAND_ACK, 0, 0])

  /** A device that takes a packet and acknowledges it at the first poll. */
  const AckedScript: seq<Outcome> := [WriteOk, WriteOk, WriteOk, AckReply]

  /** A device that answers with the one-byte status frame `s`, correctly checksummed. */
  function StatusScript(s: Byte): seq<Outcome>
  {
    [Done([3]), Done([s]), Done([s]), WriteOk]
  }

  /** A device that acknowledges a command and its GET_STATUS and then reports `s`. */
  function CommandScript(s: Byte): seq<Outcome>
  {
    AckedScript + AckedScript + StatusScript(s)
  }

  /** What the host logs when a packet is written and acknowledged at once. */
  function PacketLog(p: seq<Byte>, fileLength: nat): seq<Event>
    requires |p| <= MAX_PAYLOAD
  {
    FrameLog(p) + PollEvents(AckDelay(p, fileLength))
  }

  /** What the host logs while it reads a status frame and acknowledges it. */
  const StatusLog: seq<Event> := [Received, Received, Received, Sent([COMMAND_ACK])]

  /** What the host logs for one complete command exchange. */
  function CommandLog(p: seq<Byte>, fileLength: nat): seq<Event>
    requires |p| <= MAX_PAYLOAD
  {
    PacketLog(p, fileLength) + PacketLog([COMMAND_GET_STATUS], fileLength) + StatusLog
  }

  // ---------------------------------------------------------------- lemmas: SendPacket

  /** SendPacketRun by its three writes, each given as its outcome. */
  lemma SendPacketSteps(w: Wire, p: seq<Byte>, ack: bool, fileLength: nat,
                        ok1: bool, w1: Wire, ok2: bool, w2: Wire, ok3: bool, w3: Wire)
    requires |p| <= MAX_PAYLOAD
    requires SendOn(w, [|p| + 2]) == (ok1, w1)
    requires SendOn(w1, [Sum8(p)]) == (ok2, w2)
    requires SendOn(w2, p) == (ok3, w3)
    ensures SendPacketRun(w, p, ack, fileLength)
            == if !ok1 then (w1, -1) else if !ok2 then (w2, -1) else if !ok3 then (w3, -1)
               else if !ack then (w3, 0) else PollAck(w3, Zero4, AckDelay(p, fileLength))
  {
  }

  /** The frame goes out as three writes, length byte first, then the checksum,
   *  then the payload; the first write that fails is the last one attempted
   *  and SendPacket returns -1 without reading anything.  Without bAck it
   *  returns 0 once the three writes went through. */
  lemma SendPacketWritesFrame(w: Wire, p: seq<Byte>, ack: bool, fileLength: nat)
    requires |p| <= MAX_PAYLOAD
    ensures var k := DoneRun(w.script, 3);
            var (w', r) := SendPacketRun(w, p, ack, fileLength);
            (k < 3 ==> r == -1 && w'.log == w.log + FrameLog(p)[..k + 1])
            && (k == 3 && !ack ==> r == 0 && w'.log == w.log + FrameLog(p))
            && (k == 3 ==> |w'.log| >= |w.log| + 3 && w'.log[..|w.log| + 3] == w.log + FrameLog(p))
  {
    var e1 := Sent([|p| + 2]);
    var e2 := Sent([Sum8(p)]);
    var w1 := Advance(w, e1);
    var w2 := Advance(w1, e2);
    var w3 := Advance(w2, Sent(p));
    SendPacketSteps(w, p, ack, fileLength, Next(w).Done?, w1, Next(w1).Done?, w2, Next(w2).Done?, w3);
    DoneRunSteps(w, e1, e2);
    var frame := FrameLog(p);
    assert frame[..1] == [e1] && frame[..2] == [e1, e2] && frame[..3] == frame;
    assert w3.log == w.log + frame;
    if ack {
      PollAckExtendsLog(w3, Zero4, AckDelay(p, fileLength));
    }
  }

  /** How many of the first m outcomes of the script succeed before the first failure. */
  function DoneRun(script: seq<Outcome>, m: nat): (k: nat)
    ensures k <= m
  {
    if m == 0 || script == [] || script[0].Fault? then 0 else 1 + DoneRun(script[1..], m - 1)
  }

  /** DoneRun over the first three outcomes, one transport call at a time. */
  lemma DoneRunSteps(w: Wire, e1: Event, e2: Event)
    ensures var w1 := Advance(w, e1);
            var w2 := Advance(w1, e2);
            DoneRun(w.script, 3) == (if Next(w).Fault? then 0
                                     else if Next(w1).Fault? then 1
                                     else if Next(w2).Fault? then 2 else 3)
  {
    var script := w.script;
    if script != [] && script[0].Done? {
      var s1 := script[1..];
      assert DoneRun(script, 3) == 1 + DoneRun(s1, 2);
      if s1 != [] && s1[0].Done? {
        assert DoneRun(s1, 2) == 1 + DoneRun(s1[1..], 1);
        var s2 := s1[1..];
        if s2 != [] && s2[0].Done? {
          assert DoneRun(s2, 1) == 1 + DoneRun(s2[1..], 0);
        }
      }
    }
  }

  /** Polling only appends to the log. */
  lemma {:induction false} PollAckExtendsLog(w: Wire, word: seq<Byte>, delay: Option<nat>)
    requires |word| == 4
    ensures |PollAck(w, word, delay).0.log| >= |w.log|
    ensures PollAck(w, word, delay).0.log[..|w.log|] == w.log
    decreases |w.script|
  {
    var w1 := if delay.Some? then WaitOn(w, delay.value) else w;
    var (reply, w2) := ReceiveOn(w1);
    if reply.Some? {
      var word' := Overlay(word, reply.value)[..4];
      if word' == Zero4 {
        PollAckExtendsLog(w2, word', delay);
        assert w2.log[..|w.log|] == w.log;
      }
    }
  }

  /** Without bAck, SendPacket reads nothing: it returns 0 exactly when all
   *  three writes succeed, and then it has done exactly those three writes. */
  lemma SendPacketWithoutAck(w: Wire, p: seq<Byte>, fileLength: nat)
    requires |p| <= MAX_PAYLOAD
    ensures var (w', r) := SendPacketRun(w, p, false, fileLength);
            (r == 0 <==> DoneRun(w.script, 3) == 3)
            && (r == 0 ==> w'.log == w.log + FrameLog(p))
            && Received !in w'.log[|w.log|..]
  {
    SendPacketWritesFrame(w, p, false, fileLength);
    var w' := SendPacketRun(w, p, false, fileLength).0;
    var k := DoneRun(w.script, 3);
    var sent := if k == 3 then FrameLog(p) else FrameLog(p)[..k + 1];
    assert w'.log == w.log + sent;
    assert w'.log[|w.log|..] == sent;
  }

  /** With bAck, on any bus: a failed write gives -1 and ends the log after
   *  that write; after three good writes the result is that of a poll
   *  decided on the rest of the script — 0 exactly when its deciding reply
   *  has ACK in the second byte of the word — and the log is the frame
   *  followed by one wait-and-read per poll. */
  lemma SendPacketWithAck(w: Wire, p: seq<Byte>, fileLength: nat)
    requires |p| <= MAX_PAYLOAD
    ensures var (w', r) := SendPacketRun(w, p, true, fileLength);
            var k := DoneRun(w.script, 3);
            && (k < 3 ==> r == -1 && w'.log == w.log + FrameLog(p)[..k + 1])
            && (k == 3 ==> && |w.script| >= 3 && PollDecided(w.script[3..], w'.script, r)
                           && w'.log == w.log + FrameLog(p)
                                        + Repeat(PollEvents(AckDelay(p, fileLength)),
                                                 PollReads(w.script[3..], w'.script)))
  {
    SendPacketWritesFrame(w, p, true, fileLength);
    var e1 := Sent([|p| + 2]);
    var e2 := Sent([Sum8(p)]);
    var w1 := Advance(w, e1);
    var w2 := Advance(w1, e2);
    var w3 := Advance(w2, Sent(p));
    SendPacketSteps(w, p, true, fileLength, Next(w).Done?, w1, Next(w1).Done?, w2, Next(w2).Done?, w3);
    DoneRunSteps(w, e1, e2);
    if DoneRun(w.script, 3) == 3 {
      assert w3.script == w.script[3..];
      PollAckDecides(w3, AckDelay(p, fileLength));
    }
  }

  /** One acknowledgement poll whose outcome is at the head of the script. */
  lemma PollAckStep(o: Outcome, rest: seq<Outcome>, log: seq<Event>, word: seq<Byte>, delay: Option<nat>)
    requires |word| == 4
    ensures var w2 := Wire(rest, log + PollEvents(delay));
            PollAck(Wire([o] + rest, log), word, delay)
            == if o.Fault? then (w2, -1)
               else if Overlay(word, o.reply)[..4] == Zero4 then PollAck(w2, Overlay(word, o.reply)[..4], delay)
               else (w2, if Overlay(word, o.reply)[..4][1] == COMMAND_ACK then 0 else -1)
  {
    var w := Wire([o] + rest, log);
    var w1 := if delay.Some? then WaitOn(w, delay.value) else w;
    assert w1 == Wire([o] + rest, log + (if delay.Some? then [Delay(delay.value)] else []));
    ReceiveHead(o, rest, w1.log);
    assert w1.log + [Received] == log + PollEvents(delay);
  }

  /** A four-byte reply leaves exactly that word in the acknowledgement variable. */
  lemma OverlayWord(word: seq<Byte>, reply: seq<Byte>)
    requires |word| == 4 && |reply| == 4
    ensures Overlay(word, reply)[..4] == reply
  {
  }

  /** The acknowledgement word a reply leaves in a zeroed `ui32Ack`. */
  function AckWord(reply: seq<Byte>): seq<Byte>
  {
    Overlay(Zero4, reply)[..4]
  }

  /** An outcome the poll reads past: a reply whose word is still zero. */
  predicate ZeroWord(o: Outcome)
  {
    o.Done? && AckWord(o.reply) == Zero4
  }

  /** An outcome that acknowledges: a reply whose word has ACK in its second byte. */
  predicate AckedWord(o: Outcome)
  {
    o.Done? && AckWord(o.reply)[1] == COMMAND_ACK
  }

  /** What a poll that took the bus's script from `script` to `script'` and
   *  returned r did: it consumed k outcomes, every one before the last a
   *  reply whose word reads as zero; it stopped at the first outcome that is
   *  not such a reply, or when the script ran out; and r is 0 exactly when
   *  the k-th outcome, the one that decided the poll, is a reply with ACK in
   *  its second byte. */
  predicate PollDecided(script: seq<Outcome>, script': seq<Outcome>, r: int)
  {
    var k := |script| - |script'|;
    && 0 <= k && script' == script[k..]
    && (forall j :: 0 <= j < k - 1 ==> ZeroWord(script[j]))
    && (k == |script| || (k >= 1 && !ZeroWord(script[k - 1])))
    && (r == 0 <==> k >= 1 && AckedWord(script[k - 1]))
  }

  /** How many reads a poll that took the script from `script` to `script'`
   *  made: one per outcome it consumed, and one more, which found nothing,
   *  when the script ran out while the word was still zero. */
  function PollReads(script: seq<Outcome>, script': seq<Outcome>): nat
  {
    var k := |script| - |script'|;
    if 0 <= k <= |script| && k >= 1 && !ZeroWord(script[k - 1]) then k
    else if k >= 0 then k + 1 else 0
  }

  /** A zero word read before a decided poll leaves the poll decided, one read longer. */
  lemma PollDecidedAfterZero(o: Outcome, rest: seq<Outcome>, script': seq<Outcome>, r: int)
    requires ZeroWord(o) && PollDecided(rest, script', r)
    ensures PollDecided([o] + rest, script', r)
    ensures PollReads([o] + rest, script') == PollReads(rest, script') + 1
  {
    var k' := |rest| - |script'|;
    if k' >= 1 {
      assert ([o] + rest)[k'] == rest[k' - 1];
    }
  }

  /** The log of a poll that read one more time before the rest of it. */
  lemma PollLogAfterZero(log: seq<Event>, pe: seq<Event>, n: nat, log': seq<Event>)
    requires log' == log + pe + Repeat(pe, n)
    ensures log' == log + Repeat(pe, n + 1)
  {
    RepeatAfter(log, pe, n);
  }

  /** The acknowledgement poll on any bus is decided as PollDecided says —
   *  zero words are polled past, and only ACK in the second byte of the
   *  first nonzero word is success — and every read of it is logged with
   *  the wait that precedes it. */
  lemma {:induction false} PollAckDecides(w: Wire, delay: Option<nat>)
    ensures var (w', r) := PollAck(w, Zero4, delay);
            && PollDecided(w.script, w'.script, r)
            && w'.log == w.log + Repeat(PollEvents(delay), PollReads(w.script, w'.script))
    decreases |w.script|
  {
    var pe := PollEvents(delay);
    var (w', r) := PollAck(w, Zero4, delay);
    assert Repeat(pe, 1) == pe;
    if w.script == [] {
      PollAckExhausted(w.log, delay);
    } else {
      var o, rest := w.script[0], w.script[1..];
      assert w.script == [o] + rest;
      PollAckZeroStep(o, rest, w.log, delay);
      if ZeroWord(o) {
        PollAckDecides(Wire(rest, w.log + pe), delay);
        PollDecidedAfterZero(o, rest, w'.script, r);
        PollLogAfterZero(w.log, pe, PollReads(rest, w'.script), w'.log);
      } else {
        PollDecidedFirst(o, rest, r);
      }
    }
  }

  /** A poll on an exhausted script reads nothing and fails. */
  lemma PollAckExhausted(log: seq<Event>, delay: Option<nat>)
    ensures PollAck(Wire([], log), Zero4, delay) == (Wire([], log + PollEvents(delay)), -1)
  {
    var w1 := if delay.Some? then WaitOn(Wire([], log), delay.value) else Wire([], log);
    assert w1.log + [Received] == log + PollEvents(delay);
  }

  /** One poll from a zeroed word, in terms of the outcome at the head of the script. */
  lemma PollAckZeroStep(o: Outcome, rest: seq<Outcome>, log: seq<Event>, delay: Option<nat>)
    ensures PollAck(Wire([o] + rest, log), Zero4, delay)
            == if ZeroWord(o) then PollAck(Wire(rest, log + PollEvents(delay)), Zero4, delay)
               else (Wire(rest, log + PollEvents(delay)), if AckedWord(o) then 0 else -1)
  {
    PollAckStep(o, rest, log, Zero4, delay);
  }

  /** A poll decided by the first outcome it reads: one read. */
  lemma PollDecidedFirst(o: Outcome, rest: seq<Outcome>, r: int)
    requires !ZeroWord(o) && (r == 0 <==> AckedWord(o))
    ensures PollDecided([o] + rest, rest, r) && PollReads([o] + rest, rest) == 1
  {
    assert ([o] + rest)[1..] == rest;
  }

  /** A reply whose word reads as zero is polled past, and the ACK after it
   *  decides the poll: two reads, each with its wait, and 0. */
  lemma PollAckSkipsZeroWord(rest: seq<Outcome>, log: seq<Event>, delay: Option<nat>)
    ensures PollAck(Wire([Done(Zero4), AckReply] + rest, log), Zero4, delay)
            == (Wire(rest, log + PollEvents(delay) + PollEvents(delay)), 0)
  {
    assert [Done(Zero4), AckReply] + rest == [Done(Zero4)] + ([AckReply] + rest);
    PollAckStep(Done(Zero4), [AckReply] + rest, log, Zero4, delay);
    OverlayWord(Zero4, Zero4);
    PollAckAcked(rest, log + PollEvents(delay), delay);
  }

  /** The three writes of a frame to a bus that accepts them. */
  lemma FrameAccepted(p: seq<Byte>, rest: seq<Outcome>, log: seq<Event>)
    requires |p| <= MAX_PAYLOAD
    ensures var r2 := [WriteOk] + rest;
            var r1 := [WriteOk] + r2;
            var l1 := log + [Sent([|p| + 2])];
            var l2 := l1 + [Sent([Sum8(p)])];
            SendOn(Wire([WriteOk] + r1, log), [|p| + 2]) == (true, Wire(r1, l1))
            && SendOn(Wire(r1, l1), [Sum8(p)]) == (true, Wire(r2, l2))
            && SendOn(Wire(r2, l2), p) == (true, Wire(rest, log + FrameLog(p)))
  {
    var l2 := log + [Sent([|p| + 2])] + [Sent([Sum8(p)])];
    assert l2 + [Sent(p)] == log + FrameLog(p);
    SendHead(WriteOk, [WriteOk] + ([WriteOk] + rest), log, [|p| + 2]);
    SendHead(WriteOk, [WriteOk] + rest, log + [Sent([|p| + 2])], [Sum8(p)]);
    SendHead(WriteOk, rest, l2, p);
  }

  /** An acknowledgement read at the first poll. */
  lemma PollAckAcked(rest: seq<Outcome>, log: seq<Event>, delay: Option<nat>)
    ensures PollAck(Wire([AckReply] + rest, log), Zero4, delay) == (Wire(rest, log + PollEvents(delay)), 0)
  {
    PollAckStep(AckReply, rest, log, Zero4, delay);
    OverlayWord(Zero4, AckReply.reply);
  }

  /** A packet written to a device that acknowledges it at once. */
  lemma SendPacketAcked(p: seq<Byte>, fileLength: nat, rest: seq<Outcome>, log: seq<Event>)
    requires |p| <= MAX_PAYLOAD
    ensures SendPacketRun(Wire(AckedScript + rest, log), p, true, fileLength)
            == (Wire(rest, log + PacketLog(p, fileLength)), 0)
  {
    var r3 := [AckReply] + rest;
    var r2 := [WriteOk] + r3;
    var r1 := [WriteOk] + r2;
    var l1 := log + [Sent([|p| + 2])];
    var l2 := l1 + [Sent([Sum8(p)])];
    var l3 := log + FrameLog(p);
    assert AckedScript + rest == [WriteOk] + r1;
    assert l3 + PollEvents(AckDelay(p, fileLength)) == log + PacketLog(p, fileLength);
    FrameAccepted(p, r3, log);
    SendPacketSteps(Wire([WriteOk] + r1, log), p, true, fileLength,
                    true, Wire(r1, l1), true, Wire(r2, l2), true, Wire(r3, l3));
    PollAckAcked(rest, l3, AckDelay(p, fileLength));
  }

  // ---------------------------------------------------------------- lemmas: GetPacket

  /** The replies a device gives when it hands the host the frame of `p`. */
  function FrameReplies(p: seq<Byte>): seq<Outcome>
    requires |p| <= MAX_PAYLOAD
  {
    [Done([|p| + 2]), Done([Sum8(p)]), Done(p)]
  }

  /** One read of the length byte whose outcome is at the head of the script. */
  lemma PollLengthStep(o: Outcome, rest: seq<Outcome>, log: seq<Event>, size: Byte)
    ensures var w1 := Wire(rest, log + [Received]);
            PollLength(Wire([o] + rest, log), size)
            == if o.Fault? then (w1, None)
               else if Load(size, o.reply) == 0 then PollLength(w1, 0)
               else (w1, Some(Load(size, o.reply)))
  {
    ReceiveHead(o, rest, log);
  }

  /** The length poll: zero length bytes are read past; the first nonzero one
   *  is the frame length. */
  lemma {:induction false} PollLengthSkipsZeros(zeros: nat, length: Byte, rest: seq<Outcome>, log: seq<Event>)
    requires length != 0
    ensures PollLength(Wire(Repeat([Done([0])], zeros) + ([Done([length])] + rest), log), 0)
            == (Wire(rest, log + Repeat([Received], zeros + 1)), Some(length))
    decreases zeros
  {
    var x := [Done([length])] + rest;
    if zeros == 0 {
      assert Repeat([Done([0])], zeros) + x == x;
      PollLengthStep(Done([length]), rest, log, 0);
      assert Repeat([Received], 1) == [Received];
    } else {
      var tail := Repeat([Done([0])], zeros - 1) + x;
      assert PollLength(Wire(tail, log + [Received]), 0)
          == (Wire(rest, log + [Received] + Repeat([Received], zeros)), Some(length)) by {
        PollLengthSkipsZeros(zeros - 1, length, rest, log + [Received]);
      }
      assert Repeat([Done([0])], zeros) == [Done([0])] + Repeat([Done([0])], zeros - 1);
      assert Repeat([Done([0])], zeros) + x == [Done([0])] + tail;
      PollLengthStep(Done([0]), tail, log, 0);
      RepeatAfter(log, [Received], zeros);
    }
  }

  /** Round trip: a device that hands back exactly the frame SendPacket writes
   *  — after any number of zero length bytes — has the payload accepted:
   *  GetPacket reports its size, leaves it in the destination, sends ACK and
   *  returns 0. */
  lemma GetPacketRoundTrip(p: seq<Byte>, dest: seq<Byte>, size: Byte, zeros: nat,
                           rest: seq<Outcome>, log: seq<Event>)
    requires |p| <= MAX_PAYLOAD
    ensures GetPacketRun(Wire(Repeat([Done([0])], zeros) + (FrameReplies(p) + ([WriteOk] + rest)), log), dest, size)
            == Reception(Wire(rest, log + Repeat([Received], zeros + 1) + [Received, Received, Sent([COMMAND_ACK])]),
                         0, Overlay(dest, p)[..|dest|], |p|)
  {
    var r3 := [WriteOk] + rest;
    var r2 := [Done(p)] + r3;
    var r1 := [Done([Sum8(p)])] + r2;
    var zs := Repeat([Done([0])], zeros);
    var l1 := log + Repeat([Received], zeros + 1);
    var l2 := l1 + [Received];
    assert zs + (FrameReplies(p) + r3) == zs + ([Done([|p| + 2])] + r1);
    assert l2 + [Received] + [Sent([COMMAND_ACK])] == l1 + [Received, Received, Sent([COMMAND_ACK])];
    assert FrameSize(|p| + 2) == |p| && Load(0, [Sum8(p)]) == Sum8(p);
    PollLengthSkipsZeros(zeros, |p| + 2, r1, log);
    ReceiveHead(Done([Sum8(p)]), r2, l1);
    GetPacketSteps(Wire(zs + ([Done([|p| + 2])] + r1), log), dest, size, Wire(r1, l1), Some(|p| + 2),
                   Some([Sum8(p)]), Wire(r2, l2));
    ReadPayloadAccepts(p, dest, r3, l2);
    SendHead(WriteOk, rest, l2 + [Received], [COMMAND_ACK]);
  }

  /** The payload stage of GetPacket, given the payload whose checksum it was sent. */
  lemma ReadPayloadAccepts(p: seq<Byte>, dest: seq<Byte>, rest: seq<Outcome>, log: seq<Event>)
    requires |p| <= MAX_PAYLOAD
    ensures ReadPayload(Wire([Done(p)] + rest, log), |p|, Sum8(p), dest)
            == (var (w2, r) := ReplyRun(Wire(rest, log + [Received]), COMMAND_ACK);
                Reception(w2, r, Overlay(dest, p)[..|dest|], |p|))
  {
    ReceiveHead(Done(p), rest, log);
    assert Take(Overlay(dest, p), |p|) == p;
  }

  /** One more copy appended in front of k copies. */
  lemma RepeatAfter<T>(prefix: seq<T>, s: seq<T>, k: nat)
    ensures prefix + s + Repeat(s, k) == prefix + Repeat(s, k + 1)
  {
    assert Repeat(s, k + 1) == s + Repeat(s, k);
  }

  /** Corrupting any one payload byte of a frame is detected: GetPacket reports
   *  size 0 and sends NAK — and, as written, returns the NAK write's result,
   *  0, not an error. */
  lemma GetPacketNaksCorruption(p: seq<Byte>, i: nat, x: Byte, dest: seq<Byte>, size: Byte,
                                rest: seq<Outcome>, log: seq<Event>)
    requires |p| <= MAX_PAYLOAD && i < |p| && x != p[i]
    ensures GetPacketRun(Wire([Done([|p| + 2]), Done([Sum8(p)]), Done(p[i := x]), WriteOk] + rest, log), dest, size)
            == Reception(Wire(rest, log + [Received, Received, Received, Sent([COMMAND_NAK])]),
                         0, Overlay(dest, p[i := x])[..|dest|], 0)
  {
    var q := p[i := x];
    var r3 := [WriteOk] + rest;
    var r2 := [Done(q)] + r3;
    var r1 := [Done([Sum8(p)])] + r2;
    var l1 := log + [Received];
    var l2 := l1 + [Received];
    var l3 := l2 + [Received];
    assert [Done([|p| + 2]), Done([Sum8(p)]), Done(q), WriteOk] + rest == [Done([|p| + 2])] + r1;
    assert l3 + [Sent([COMMAND_NAK])] == log + [Received, Received, Received, Sent([COMMAND_NAK])];
    assert FrameSize(|p| + 2) == |p| && Load(0, [Sum8(p)]) == Sum8(p) && Load(0, [|p| + 2]) == |p| + 2;
    assert Take(Overlay(dest, q), |p|) == q;
    Sum8DetectsSingleByteChange(p, i, x);
    PollLengthStep(Done([|p| + 2]), r1, log, 0);
    ReceiveHead(Done([Sum8(p)]), r2, l1);
    GetPacketSteps(Wire([Done([|p| + 2])] + r1, log), dest, size, Wire(r1, l1), Some(|p| + 2),
                   Some([Sum8(p)]), Wire(r2, l2));
    ReceiveHead(Done(q), r3, l2);
    SendHead(WriteOk, rest, l3, [COMMAND_NAK]);
  }

  // ---------------------------------------------------------------- lemmas: handshake

  /** A status frame read from a device that sends `s`: accepted, and `s` lands
   *  in the one-byte status variable. */
  lemma GetStatusFrame(s: Byte, rest: seq<Outcome>, log: seq<Event>)
    ensures GetPacketRun(Wire(StatusScript(s) + rest, log), [COMMAND_GET_STATUS], 1)
            == Reception(Wire(rest, log + StatusLog), 0, [s], 1)
  {
    Sum8Single(s);
    assert Repeat([Done([0])], 0) + (FrameReplies([s]) + ([WriteOk] + rest)) == StatusScript(s) + rest;
    GetPacketRoundTrip([s], [COMMAND_GET_STATUS], 1, 0, rest, log);
    assert Repeat([Received], 1) == [Received];
    assert log + Repeat([Received], 1) + [Received, Received, Sent([COMMAND_ACK])] == log + StatusLog;
    assert Overlay([COMMAND_GET_STATUS], [s])[..1] == [s];
  }

  /** SendCommand against a device that acknowledges both packets and reports
   *  status `s`: the whole exchange is logged, nothing more is read, and the
   *  result is 0 exactly when `s` is SUCCESS. */
  lemma SendCommandWithDevice(p: seq<Byte>, fileLength: nat, s: Byte, rest: seq<Outcome>, log: seq<Event>)
    requires |p| <= MAX_PAYLOAD
    ensures SendCommandRun(Wire(CommandScript(s) + rest, log), p, fileLength)
            == (Wire(rest, log + CommandLog(p, fileLength)), if s == COMMAND_RET_SUCCESS then 0 else -1)
  {
    var r2 := AckedScript + (StatusScript(s) + rest);
    assert CommandScript(s) + rest == AckedScript + r2;
    SendPacketAcked(p, fileLength, r2, log);
    var l1 := log + PacketLog(p, fileLength);
    SendPacketAcked([COMMAND_GET_STATUS], fileLength, StatusScript(s) + rest, l1);
    var l2 := l1 + PacketLog([COMMAND_GET_STATUS], fileLength);
    GetStatusFrame(s, rest, l2);
    var w := Wire(CommandScript(s) + rest, log);
    assert SendPacketRun(w, p, true, fileLength) == (Wire(r2, l1), 0);
    assert SendPacketRun(Wire(r2, l1), [COMMAND_GET_STATUS], true, fileLength)  == (Wire(StatusScript(s) + rest, l2), 0);
    assert GetPacketRun(Wire(StatusScript(s) + rest, l2), [COMMAND_GET_STATUS], 1) == Reception(Wire(rest, l2 + StatusLog), 0, [s], 1);
    SendCommandComposes(w, p, fileLength,
                        Wire(r2, l1), Wire(StatusScript(s) + rest, l2), Wire(rest, l2 + StatusLog), s, 1);
    CommandLogAfter(log, p, fileLength);
  }

  lemma CommandLogAfter(log: seq<Event>, p: seq<Byte>, fileLength: nat)
    requires |p| <= MAX_PAYLOAD
    ensures log + PacketLog(p, fileLength) + PacketLog([COMMAND_GET_STATUS], fileLength) + StatusLog
            == log + CommandLog(p, fileLength)
  {
  }

  /** SendCommandRun by its three steps, each given as its outcome. */
  lemma SendCommandSteps(w: Wire, p: seq<Byte>, fileLength: nat, w1: Wire, r1: int, w2: Wire, r2: int, g: Reception)
    requires |p| <= MAX_PAYLOAD
    requires SendPacketRun(w, p, true, fileLength) == (w1, r1)
    requires r1 >= 0 ==> SendPacketRun(w1, [COMMAND_GET_STATUS], true, fileLength) == (w2, r2)
    requires r1 >= 0 && r2 >= 0 ==> GetPacketRun(w2, [COMMAND_GET_STATUS], 1) == g && |g.dest| == 1
    ensures SendCommandRun(w, p, fileLength)
            == if r1 < 0 then (w1, -1)
               else if r2 < 0 then (w2, -1)
               else if g.status < 0 then (g.wire, -1)
               else if g.dest[0] != COMMAND_RET_SUCCESS then (g.wire, -1)
               else (g.wire, 0)
  {
  }

  /** EnterBootloaderRun by its three steps, each given as its outcome. */
  lemma EnterBootloaderSteps(w: Wire, p: seq<Byte>, fileLength: nat, ok: bool, w1: Wire, w2: Wire, r2: int, g: Reception)
    requires |p| >= 1
    requires EnterOn(w, p[0], p[1..]) == (ok, w1)
    requires ok ==> SendPacketRun(w1, [COMMAND_GET_STATUS], true, fileLength) == (w2, r2)
    requires ok && r2 >= 0 ==> GetPacketRun(w2, [COMMAND_GET_STATUS], 1) == g
    ensures EnterBootloaderRun(w, p, fileLength)
            == if !ok then (w1, -1)
               else if r2 < 0 then (w2, -1)
               else if g.status < 0 then (g.wire, -1)
               else (g.wire, 0)
  {
  }

  /** GetPacketRun by its stages: the length poll, the checksum read, the rest. */
  lemma GetPacketSteps(w: Wire, dest: seq<Byte>, size: Byte, w1: Wire, length: Option<Byte>,
                       sum: Option<seq<Byte>>, w2: Wire)
    requires PollLength(w, 0) == (w1, length)
    requires length.Some? ==> ReceiveOn(w1) == (sum, w2)
    ensures GetPacketRun(w, dest, size)
            == if length.None? then Reception(w1, -1, dest, size)
               else if sum.None? then Reception(w2, -1, dest, size)
               else ReadPayload(w2, FrameSize(length.value), Load(0, sum.value), dest)
  {
  }

  /** SendCommand put together from its three steps when each goes through. */
  lemma SendCommandComposes(w: Wire, p: seq<Byte>, fileLength: nat, w1: Wire, w2: Wire, w3: Wire, s: Byte, size: Byte)
    requires |p| <= MAX_PAYLOAD
    requires SendPacketRun(w, p, true, fileLength) == (w1, 0)
    requires SendPacketRun(w1, [COMMAND_GET_STATUS], true, fileLength) == (w2, 0)
    requires GetPacketRun(w2, [COMMAND_GET_STATUS], 1) == Reception(w3, 0, [s], size)
    ensures SendCommandRun(w, p, fileLength) == (w3, if s == COMMAND_RET_SUCCESS then 0 else -1)
  {
  }

  /** SendCommand stops at the first step that fails, with no further bus
   *  traffic, and succeeds only when every step succeeded and the status
   *  byte read back is SUCCESS. */
  lemma SendCommandStopsAtFirstFailure(w: Wire, p: seq<Byte>, fileLength: nat)
    requires |p| <= MAX_PAYLOAD
    ensures var (w1, r1) := SendPacketRun(w, p, true, fileLength);
            var (w2, r2) := SendPacketRun(w1, [COMMAND_GET_STATUS], true, fileLength);
            var g := GetPacketRun(w2, [COMMAND_GET_STATUS], 1);
            (r1 < 0 ==> SendCommandRun(w, p, fileLength) == (w1, -1))
            && (r1 >= 0 && r2 < 0 ==> SendCommandRun(w, p, fileLength) == (w2, -1))
            && (SendCommandRun(w, p, fileLength).1 == 0 <==>
                  r1 >= 0 && r2 >= 0 && g.status >= 0 && g.dest[0] == COMMAND_RET_SUCCESS)
  {
  }

  /** EnterBootloader stops at the first step that fails, with no further
   *  bus traffic, and returns 0 exactly when the raw entry, the GET_STATUS
   *  packet and the status read all went through: the status byte itself
   *  is never compared with SUCCESS. */
  lemma EnterBootloaderStopsAtFirstFailure(w: Wire, p: seq<Byte>, fileLength: nat)
    requires |p| >= 1
    ensures var (ok, w1) := EnterOn(w, p[0], p[1..]);
            var (w2, r2) := SendPacketRun(w1, [COMMAND_GET_STATUS], true, fileLength);
            var g := GetPacketRun(w2, [COMMAND_GET_STATUS], 1);
            (!ok ==> EnterBootloaderRun(w, p, fileLength) == (w1, -1))
            && (ok && r2 < 0 ==> EnterBootloaderRun(w, p, fileLength) == (w2, -1))
            && (ok && r2 >= 0 ==> EnterBootloaderRun(w, p, fileLength).0 == g.wire)
            && (EnterBootloaderRun(w, p, fileLength).1 == 0 <==> ok && r2 >= 0 && g.status >= 0)
  {
  }

  /** As written, a status frame whose checksum does not match is NAKed but
   *  still read: when its byte is SUCCESS, SendCommand reports success. */
  lemma SendCommandAcceptsCorruptSuccess(p: seq<Byte>, fileLength: nat, rest: seq<Outcome>, log: seq<Event>)
    requires |p| <= MAX_PAYLOAD
    ensures var corrupt := [Done([3]), Done([0]), Done([COMMAND_RET_SUCCESS]), WriteOk];
            SendCommandRun(Wire(AckedScript + (AckedScript + (corrupt + rest)), log), p, fileLength)
            == (Wire(rest, log + PacketLog(p, fileLength) + PacketLog([COMMAND_GET_STATUS], fileLength)
                           + [Received, Received, Received, Sent([COMMAND_NAK])]), 0)
  {
    var tail := [Done([3]), Done([0]), Done([COMMAND_RET_SUCCESS]), WriteOk] + rest;
    var r2 := AckedScript + tail;
    var l1 := log + PacketLog(p, fileLength);
    var l2 := l1 + PacketLog([COMMAND_GET_STATUS], fileLength);
    var l3 := l2 + [Received, Received, Received, Sent([COMMAND_NAK])];
    assert [0][0 := COMMAND_RET_SUCCESS] == [COMMAND_RET_SUCCESS];
    assert Overlay([COMMAND_GET_STATUS], [COMMAND_RET_SUCCESS])[..1] == [COMMAND_RET_SUCCESS];
    Sum8Single(0);
    assert [Done([|[0]| + 2]), Done([Sum8([0])]), Done([0][0 := COMMAND_RET_SUCCESS]), WriteOk] + rest == tail;
    SendPacketAcked(p, fileLength, r2, log);
    SendPacketAcked([COMMAND_GET_STATUS], fileLength, tail, l1);
    GetPacketNaksCorruption([0], 0, COMMAND_RET_SUCCESS, [COMMAND_GET_STATUS], 1, rest, l2);
    SendCommandComposes(Wire(AckedScript + r2, log), p, fileLength, Wire(r2, l1), Wire(tail, l2), Wire(rest, l3),
                        COMMAND_RET_SUCCESS, 0);
  }

  /** EnterBootloader returns 0 whatever status the device reports: it checks
   *  only that each step of the round trip went through. */
  lemma EnterBootloaderIgnoresStatus(s: Byte, fileLength: nat, rest: seq<Outcome>, log: seq<Event>)
    ensures EnterBootloaderRun(Wire([WriteOk] + AckedScript + StatusScript(s) + rest, log),
                               [COMMAND_ENTER_BOOTLOADER], fileLength)
            == (Wire(rest, log + [Raw(COMMAND_ENTER_BOOTLOADER, [])]
                               + PacketLog([COMMAND_GET_STATUS], fileLength) + StatusLog), 0)
  {
    var script := [WriteOk] + AckedScript + StatusScript(s) + rest;
    assert script[1..] == AckedScript + (StatusScript(s) + rest);
    var l1 := log + [Raw(COMMAND_ENTER_BOOTLOADER, [])];
    assert [COMMAND_ENTER_BOOTLOADER][1..] == [];
    assert EnterOn(Wire(script, log), COMMAND_ENTER_BOOTLOADER, []) == (true, Wire(script[1..], l1));
    SendPacketAcked([COMMAND_GET_STATUS], fileLength, StatusScript(s) + rest, l1);
    GetStatusFrame(s, rest, l1 + PacketLog([COMMAND_GET_STATUS], fileLength));
  }

}

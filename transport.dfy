/**
 * The byte transport the protocol runs over (the I2C/SMBus glue of
 * cli_classic.c is not part of this model).  The bus is a script of outcomes,
 * one per transport call in the order the host makes them, plus a log of what
 * the host did: every write (I2CSendData), every read (I2CReceiveData), the
 * raw entry into the boot loader (I2CEnterBootloader) and every requested
 * delay.  A call that finds the script exhausted fails, so every read the host
 * repeats eventually fails and the host's polling loops terminate.
 */
module Transport {

  import opened Optional
  import opened Protocol

  /** The bus's answer to one transport call: it succeeded — for a read, with
   *  the bytes the device returned — or it failed. */
  datatype Outcome = Done(reply: seq<Byte>) | Fault

  /** One thing the host did on the bus. */
  datatype Event =
    | Sent(bytes: seq<Byte>)
    | Received
    | Raw(command: Byte, rest: seq<Byte>)
    | Delay(ms: nat)

  /** The state of the bus as a value: outcomes still to come, and the log so far. */
  datatype Wire = Wire(script: seq<Outcome>, log: seq<Event>)

  /** The outcome of the next transport call. */
  function Next(w: Wire): Outcome
  {
    if w.script == [] then Fault else w.script[0]
  }

  /** Makes one transport call: consumes its outcome and logs the event. */
  function Advance(w: Wire, e: Event): (w': Wire)
    ensures w'.log == w.log + [e]
    ensures Next(w).Done? ==> w'.script == w.script[1..]
    ensures |w'.script| <= |w.script|
  {
    Wire(if w.script == [] then [] else w.script[1..], w.log + [e])
  }

  /** Write bytes to the device; true when the write succeeded. */
  function SendOn(w: Wire, bytes: seq<Byte>): (bool, Wire)
  {
    (Next(w).Done?, Advance(w, Sent(bytes)))
  }

  /** Read from the device: the reply, or None when the read failed. */
  function ReceiveOn(w: Wire): (Option<seq<Byte>>, Wire)
  {
    (if Next(w).Done? then Some(Next(w).reply) else None, Advance(w, Received))
  }

  /** The bus-specific entry into the boot loader, before full framing is available. */
  function EnterOn(w: Wire, command: Byte, rest: seq<Byte>): (bool, Wire)
  {
    (Next(w).Done?, Advance(w, Raw(command, rest)))
  }

  /** Wait: recorded, takes no outcome from the script. */
  function WaitOn(w: Wire, ms: nat): Wire
  {
    Wire(w.script, w.log + [Delay(ms)])
  }

  /** A write whose outcome is at the head of the script. */
  lemma SendHead(o: Outcome, rest: seq<Outcome>, log: seq<Event>, bytes: seq<Byte>)
    ensures SendOn(Wire([o] + rest, log), bytes) == (o.Done?, Wire(rest, log + [Sent(bytes)]))
  {
    assert ([o] + rest)[1..] == rest;
  }

  /** A read whose outcome is at the head of the script. */
  lemma ReceiveHead(o: Outcome, rest: seq<Outcome>, log: seq<Event>)
    ensures ReceiveOn(Wire([o] + rest, log))
            == (if o.Done? then Some(o.reply) else None, Wire(rest, log + [Received]))
  {
    assert ([o] + rest)[1..] == rest;
  }

  /** The bus as an object whose fields the host's calls update in place. */
  class Bus {
    var script: seq<Outcome>
    var log: seq<Event>

    function State(): Wire
      reads this
    {
      Wire(script, log)
    }

    constructor (script: seq<Outcome>)
      ensures State() == Wire(script, [])
    {
      this.script := script;
      log := [];
    }

    method Send(bytes: seq<Byte>) returns (ok: bool)
      modifies this
      ensures (ok, State()) == SendOn(old(State()), bytes)
    {
      ok := Next(State()).Done?;
      var w := Advance(State(), Sent(bytes));
      script, log := w.script, w.log;
    }

    method Receive() returns (reply: Option<seq<Byte>>)
      modifies this
      ensures (reply, State()) == ReceiveOn(old(State()))
    {
      var next := Next(State());
      reply := if next.Done? then Some(next.reply) else None;
      var w := Advance(State(), Received);
      script, log := w.script, w.log;
    }

    method EnterBootloaderRaw(command: Byte, rest: seq<Byte>) returns (ok: bool)
      modifies this
      ensures (ok, State()) == EnterOn(old(State()), command, rest)
    {
      ok := Next(State()).Done?;
      var w := Advance(State(), Raw(command, rest));
      script, log := w.script, w.log;
    }

    method Wait(ms: nat)
      modifies this
      ensures State() == WaitOn(old(State()), ms)
    {
      log := log + [Delay(ms)];
    }
  }

}

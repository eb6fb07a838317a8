/** The Rocket Chip console as a state machine over values (platform.c, htif.h).

    A `Machine` is a snapshot of everything the console path reads or writes: the two
    HTIF words, the pending host byte, the console lock, the UART registers, what the
    host and the UART will do while the hart waits on them, and the ordered list of
    words the hart has written to `tohost` and to the UART transmit FIFO.

    The busy-waits are driven by the snapshot's environment: one `HostStep` per turn of
    the `tohost` spin, one new status register value per turn of the UART spin.  When
    a wait still has to go on but the environment has nothing left to offer, the call
    `Hung`: the firmware would spin there for ever.  Acquiring the console lock while
    it is held is `Hung` too: only one hart is modelled, so the holder is the caller.
 */
module HtifConsole {
  import opened Htif

  /** The HTIF console device. */
  const ConsoleDevice: Word := 1
  /** Host to target: a console input byte in the payload. */
  const CmdGetChar: Word := 0
  /** Target to host: a console output byte; host to target: its acknowledgement. */
  const CmdPutChar: Word := 1

  /** UART status register, bit 0: the receive FIFO is not empty. */
  const StatRxValid: bv32 := 1
  /** UART status register, bit 2: the transmit FIFO is not full. */
  const StatTxReady: bv32 := 4
  /** UART control register value 0b10011: enable interrupts, clear both FIFOs. */
  const CtrlInit: bv32 := 0x13

  /** One turn of the host while the hart spins on `tohost`: it may acknowledge the
      pending request (clearing `tohost`) and may post a reply word (zero: none). */
  datatype HostStep = HostStep(ack: bool, reply: Word)

  /** A word the console path writes, in program order. */
  datatype Emission = ToHost(word: Word) | UartTx(value: bv32)

  /** How a call ends: it returns, or it waits for ever from the state it reached. */
  datatype Status = Returned | Hung

  datatype Machine = Machine(
    tohost: Word,
    fromhost: Word,
    consoleBuf: int,           // htif_console_buf: 0, or 1 + the last host byte
    locked: bool,              // io_lock
    uartRx: bv32,
    uartStat: bv32,
    uartCtrl: bv32,
    hostSteps: seq<HostStep>,  // what the host does, turn by turn, while the hart spins
    uartSteps: seq<bv32>,      // successive status register values while the hart spins
    emitted: seq<Emission>,
    diagnostic: seq<bv8>)      // the message htif_assert formats for platform.c:54

  /** The range of `htif_console_buf`: nothing pending, or 1 + a byte. */
  predicate BufferOk(buf: int) {
    0 <= buf <= 256
  }

  /** The host byte a buffer value stands for, undoing the +1 offset. */
  datatype Pending = Nothing | Byte(b: int)

  function PendingByte(buf: int): (p: Pending)
    ensures p == Nothing <==> buf < 1 || buf > 256
    ensures p.Byte? ==> 0 <= p.b < 256 && p.b == buf - 1
  {
    if 1 <= buf <= 256 then Byte(buf - 1) else Nothing
  }

  /** The C cast `(uint8_t)w`: the low byte of a word. */
  function AsUint8(w: Word): (b: bv8)
    ensures b as bv64 == w & 0xFF
  {
    (w & 0xFF) as bv8
  }

  /** The `switch` of __check_fromhost on the command of a fromhost word: command 0
      buffers 1 + the low byte of the payload, every other command leaves the buffer. */
  function Dispatch(buf: int, fh: Word): (buf': int)
    ensures FromHostCmd(fh) == CmdGetChar ==>
              buf' != 0 && BufferOk(buf') && PendingByte(buf') == Byte(AsUint8(fh) as int)
    ensures FromHostCmd(fh) != CmdGetChar ==> buf' == buf
  {
    if FromHostCmd(fh) == CmdGetChar then 1 + AsUint8(FromHostData(fh)) as int else buf
  }

  /** What one console character leaves behind: its HTIF request, then the UART byte. */
  function PutcEmissions(ch: bv8): seq<Emission> {
    [ToHost(ToHostCmd(ConsoleDevice, CmdPutChar, ch as Word)), UartTx(ch as bv32)]
  }

  /** What a message leaves behind when each of its characters is put in turn. */
  function EchoAll(msg: seq<bv8>): seq<Emission> {
    if msg == [] then [] else PutcEmissions(msg[0]) + EchoAll(msg[1..])
  }

  /** The host's next turn during the `tohost` spin. */
  function HostAct(m: Machine): (m': Machine)
    requires m.hostSteps != []
    ensures |m'.hostSteps| == |m.hostSteps| - 1
  {
    var step := m.hostSteps[0];
    m.(tohost := if step.ack then 0 else m.tohost,
       fromhost := if step.reply != 0 then step.reply else m.fromhost,
       hostSteps := m.hostSteps[1..])
  }

  /** platform_console_putc: take the lock, send HTIF request (1, 1, ch), wait until
      the UART can take a byte, write it, release the lock. */
  function PutcF(m: Machine, ch: bv8): (res: (Machine, Status))
    decreases if m.locked then 0 else 1, 0, 0
    ensures m.locked ==> res == (m, Hung)
    ensures res.1 == Returned ==>
              !m.locked && !res.0.locked &&
              res.0.emitted == m.emitted + PutcEmissions(ch) &&
              res.0.tohost == ToHostCmd(ConsoleDevice, CmdPutChar, ch as Word) &&
              res.0.uartStat & StatTxReady != 0
    ensures res.1 == Hung ==>
              res.0.locked &&
              (res.0.emitted == m.emitted ||
               res.0.emitted == m.emitted + [ToHost(ToHostCmd(ConsoleDevice, CmdPutChar, ch as Word))])
    ensures res.0.diagnostic == m.diagnostic && res.0.uartCtrl == m.uartCtrl && res.0.uartRx == m.uartRx
    ensures BufferOk(m.consoleBuf) ==> BufferOk(res.0.consoleBuf)
  {
    if m.locked then (m, Hung)
    else
      var (m1, r1) := SetToHostF(m.(locked := true), ConsoleDevice, CmdPutChar, ch as Word);
      if r1 == Hung then (m1, Hung)
      else
        var (m2, r2) := TxWaitF(m1);
        if r2 == Hung then (m2, Hung)
        else (m2.(emitted := m2.emitted + [UartTx(ch as bv32)], locked := false), Returned)
  }

  /** The loop of htif_assert when the assertion fails: put each character in turn. */
  function EmitF(m: Machine, msg: seq<bv8>): (res: (Machine, Status))
    decreases if m.locked then 0 else 1, 1, |msg|
    ensures m.locked ==> res == (m, if msg == [] then Returned else Hung)
    ensures res.1 == Returned ==> res.0.locked == m.locked && res.0.emitted == m.emitted + EchoAll(msg)
    ensures res.0.diagnostic == m.diagnostic && res.0.uartCtrl == m.uartCtrl && res.0.uartRx == m.uartRx
    ensures BufferOk(m.consoleBuf) ==> BufferOk(res.0.consoleBuf)
  {
    if msg == [] then (m, Returned)
    else
      var (m1, r) := PutcF(m, msg[0]);
      if r == Hung then (m1, Hung) else EmitF(m1, msg[1..])
  }

  /** __check_fromhost.  It runs only under the console lock (its one caller runs
      inside platform_console_putc), so the diagnostic for a foreign device, whose
      first character needs that same lock, never completes. */
  function CheckF(m: Machine): (res: (Machine, Status))
    requires m.locked
    decreases 0, 2, 0
    ensures res.0 == m.(fromhost := res.0.fromhost, consoleBuf := res.0.consoleBuf)
    ensures m.fromhost == 0 ==> res == (m, Returned)
    ensures m.fromhost != 0 ==> res.0.fromhost == 0
    ensures res.1 == Hung <==>
              m.fromhost != 0 && FromHostDev(m.fromhost) != ConsoleDevice && m.diagnostic != []
    ensures res.1 == Hung ==> res.0.consoleBuf == m.consoleBuf
    ensures res.1 == Returned && m.fromhost != 0 ==> res.0.consoleBuf == Dispatch(m.consoleBuf, m.fromhost)
    ensures BufferOk(m.consoleBuf) ==> BufferOk(res.0.consoleBuf)
  {
    if m.fromhost == 0 then (m, Returned)
    else
      var fh := m.fromhost;
      var cleared := m.(fromhost := 0);
      var (m1, r) := if FromHostDev(fh) == ConsoleDevice then (cleared, Returned)
                     else EmitF(cleared, cleared.diagnostic);
      if r == Hung then (m1, Hung)
      else (m1.(consoleBuf := Dispatch(m1.consoleBuf, fh)), Returned)
  }

  /** The `while (tohost) __check_fromhost();` loop of __set_tohost. */
  function SpinF(m: Machine): (res: (Machine, Status))
    requires m.locked
    decreases 0, 3, |m.hostSteps|
    ensures res.0 == m.(tohost := res.0.tohost, fromhost := res.0.fromhost,
                        consoleBuf := res.0.consoleBuf, hostSteps := res.0.hostSteps)
    ensures |res.0.hostSteps| <= |m.hostSteps|
    ensures res.1 == Returned ==> res.0.tohost == 0
    ensures res.1 == Hung ==> res.0.tohost == m.tohost != 0
    ensures m.tohost == 0 ==> res == (m, Returned)
    ensures BufferOk(m.consoleBuf) ==> BufferOk(res.0.consoleBuf)
  {
    if m.tohost == 0 then (m, Returned)
    else
      var (m1, r) := CheckF(m);
      if r == Hung then (m1, Hung)
      else if m1.hostSteps == [] then (m1, Hung)
      else SpinF(HostAct(m1))
  }

  /** One turn of the `tohost` spin on a busy channel: poll `fromhost`, then, unless
      that poll never returns or the host has stopped, let the host act and spin on. */
  lemma SpinPolls(m: Machine)
    requires m.locked && m.tohost != 0
    ensures CheckF(m).1 == Hung ==> SpinF(m) == CheckF(m)
    ensures CheckF(m).1 == Returned && CheckF(m).0.hostSteps == [] ==> SpinF(m) == (CheckF(m).0, Hung)
    ensures CheckF(m).1 == Returned && CheckF(m).0.hostSteps != [] ==> SpinF(m) == SpinF(HostAct(CheckF(m).0))
  {
  }

  /** __set_tohost: wait until `tohost` reads zero, then write the packed request. */
  function SetToHostF(m: Machine, dev: Word, cmd: Word, data: Word): (res: (Machine, Status))
    requires m.locked
    decreases 0, 4, 0
    ensures res.0.locked && res.0.diagnostic == m.diagnostic && res.0.uartRx == m.uartRx &&
            res.0.uartStat == m.uartStat && res.0.uartCtrl == m.uartCtrl && res.0.uartSteps == m.uartSteps
    ensures res.1 == Returned ==>
              res.0.tohost == ToHostCmd(dev, cmd, data) &&
              res.0.emitted == m.emitted + [ToHost(ToHostCmd(dev, cmd, data))]
    ensures res.1 == Hung ==> res.0.emitted == m.emitted && res.0.tohost == m.tohost != 0
    ensures m.tohost == 0 ==>
              res == (m.(tohost := ToHostCmd(dev, cmd, data),
                         emitted := m.emitted + [ToHost(ToHostCmd(dev, cmd, data))]), Returned)
    ensures BufferOk(m.consoleBuf) ==> BufferOk(res.0.consoleBuf)
  {
    var (m1, r) := SpinF(m);
    if r == Hung then (m1, Hung)
    else
      var w := ToHostCmd(dev, cmd, data);
      (m1.(tohost := w, emitted := m1.emitted + [ToHost(w)]), Returned)
  }

  /** The `while ((*uart0_stat_reg & (1 << 2)) == 0);` loop of platform_console_putc. */
  function TxWaitF(m: Machine): (res: (Machine, Status))
    decreases |m.uartSteps|
    ensures res.0 == m.(uartStat := res.0.uartStat, uartSteps := res.0.uartSteps)
    ensures res.1 == Returned <==> res.0.uartStat & StatTxReady != 0
    ensures m.uartStat & StatTxReady != 0 ==> res == (m, Returned)
  {
    if m.uartStat & StatTxReady != 0 then (m, Returned)
    else if m.uartSteps == [] then (m, Hung)
    else TxWaitF(m.(uartStat := m.uartSteps[0], uartSteps := m.uartSteps[1..]))
  }

  /** The value `(int)*uart0_rx_fifo`: the 32-bit register read as a two's-complement int. */
  function AsInt32(v: bv32): (i: int)
    ensures -0x8000_0000 <= i < 0x8000_0000
    ensures i % 0x1_0000_0000 == v as int
  {
    var n := v as int;
    if n < 0x8000_0000 then n else n - 0x1_0000_0000
  }

  /** What platform_console_getc returns: the receive FIFO when its status bit is set,
      otherwise the sentinel -1.  It never waits. */
  function ConsoleRead(stat: bv32, rx: bv32): (ch: int)
    ensures stat & StatRxValid == 0 ==> ch == -1
    ensures stat & StatRxValid != 0 ==> -0x8000_0000 <= ch < 0x8000_0000
    ensures stat & StatRxValid != 0 ==> ch % 0x1_0000_0000 == rx as int
    ensures stat & StatRxValid != 0 && rx < 0x100 ==> ch == rx as int
  {
    if stat & StatRxValid != 0 then AsInt32(rx) else -1
  }

  /** A fromhost word that is empty or addressed to the console device. */
  predicate FromConsole(w: Word) {
    w == 0 || FromHostDev(w) == ConsoleDevice
  }

  /** A host that acknowledges every request at once and posts no reply. */
  predicate PromptHost(steps: seq<HostStep>) {
    forall k :: 0 <= k < |steps| ==> steps[k] == HostStep(true, 0)
  }

  /** While every reply comes from the console device, the `tohost` spin ends exactly
      when the channel is idle or the host acknowledges within the steps it takes. */
  lemma {:induction false} SpinExitsIffAck(m: Machine)
    requires m.locked && FromConsole(m.fromhost)
    requires forall k :: 0 <= k < |m.hostSteps| ==> FromConsole(m.hostSteps[k].reply)
    ensures SpinF(m).1 == Returned <==>
              m.tohost == 0 || exists k :: 0 <= k < |m.hostSteps| && m.hostSteps[k].ack
    decreases |m.hostSteps|
  {
    if m.tohost != 0 {
      var m1 := CheckF(m).0;
      if m1.hostSteps != [] {
        var m2 := HostAct(m1);
        if !m.hostSteps[0].ack {
          assert forall k :: 0 <= k < |m2.hostSteps| ==> m2.hostSteps[k] == m.hostSteps[k + 1];
          SpinExitsIffAck(m2);
          if exists k :: 0 <= k < |m.hostSteps| && m.hostSteps[k].ack {
            var k :| 0 <= k < |m.hostSteps| && m.hostSteps[k].ack;
            assert m2.hostSteps[k - 1].ack;
          }
          if exists k :: 0 <= k < |m2.hostSteps| && m2.hostSteps[k].ack {
            var k :| 0 <= k < |m2.hostSteps| && m2.hostSteps[k].ack;
            assert m.hostSteps[k + 1].ack;
          }
        } else {
          assert m.hostSteps[0].ack;
        }
      }
    }
  }

  /** The UART spin ends exactly when the status register shows "transmit not full"
      now or in one of the values the UART goes through. */
  lemma {:induction false} TxWaitExitsIffReady(m: Machine)
    ensures TxWaitF(m).1 == Returned <==>
              m.uartStat & StatTxReady != 0 ||
              exists k :: 0 <= k < |m.uartSteps| && m.uartSteps[k] & StatTxReady != 0
    decreases |m.uartSteps|
  {
    if m.uartStat & StatTxReady == 0 && m.uartSteps != [] {
      var m1 := m.(uartStat := m.uartSteps[0], uartSteps := m.uartSteps[1..]);
      TxWaitExitsIffReady(m1);
      if exists k :: 0 <= k < |m.uartSteps| && m.uartSteps[k] & StatTxReady != 0 {
        var k :| 0 <= k < |m.uartSteps| && m.uartSteps[k] & StatTxReady != 0;
        if k > 0 {
          assert m1.uartSteps[k - 1] & StatTxReady != 0;
        }
      }
      if exists k :: 0 <= k < |m1.uartSteps| && m1.uartSteps[k] & StatTxReady != 0 {
        var k :| 0 <= k < |m1.uartSteps| && m1.uartSteps[k] & StatTxReady != 0;
        assert m.uartSteps[k + 1] & StatTxReady != 0;
      }
    }
  }

  lemma {:induction false} EchoAllLength(msg: seq<bv8>)
    ensures |EchoAll(msg)| == 2 * |msg|
  {
    if msg != [] {
      EchoAllLength(msg[1..]);
    }
  }

  /** A message echoes character by character, each as its HTIF request (1, 1, c)
      followed by the same byte to the UART. */
  lemma {:induction false} EchoAllInOrder(msg: seq<bv8>, i: nat)
    requires i < |msg|
    ensures |EchoAll(msg)| == 2 * |msg|
    ensures EchoAll(msg)[2 * i] == ToHost(ToHostCmd(ConsoleDevice, CmdPutChar, msg[i] as Word))
    ensures EchoAll(msg)[2 * i + 1] == UartTx(msg[i] as bv32)
  {
    EchoAllLength(msg);
    if i > 0 {
      EchoAllInOrder(msg[1..], i - 1);
      assert EchoAll(msg) == PutcEmissions(msg[0]) + EchoAll(msg[1..]);
      assert 2 * i == 2 * (i - 1) + 2;
    }
  }

  /** Whatever the host and the UART do, the failed htif_assert loop has put out a
      prefix of the message's echo, in order: a call that hangs stops part-way
      through one character, after its HTIF request at most. */
  lemma {:induction false} EmitEchoesPrefix(m: Machine, msg: seq<bv8>)
    ensures var e := EmitF(m, msg).0.emitted;
            exists j :: 0 <= j <= |EchoAll(msg)| && e == m.emitted + EchoAll(msg)[..j]
    decreases |msg|
  {
    EchoAllLength(msg);
    var (m1, r) := EmitF(m, msg);
    if msg == [] {
      assert m1.emitted == m.emitted + EchoAll(msg)[..0];
    } else {
      var (p, rp) := PutcF(m, msg[0]);
      var echo := EchoAll(msg);
      assert echo == PutcEmissions(msg[0]) + EchoAll(msg[1..]);
      if rp == Hung {
        if p.emitted == m.emitted {
          assert p.emitted == m.emitted + echo[..0];
        } else {
          assert p.emitted == m.emitted + echo[..1];
        }
      } else {
        EmitEchoesPrefix(p, msg[1..]);
        var j :| 0 <= j <= |EchoAll(msg[1..])| && m1.emitted == p.emitted + EchoAll(msg[1..])[..j];
        assert echo[..j + 2] == PutcEmissions(msg[0]) + EchoAll(msg[1..])[..j];
        assert m1.emitted == m.emitted + echo[..j + 2];
      }
    }
  }

  /** On an idle channel with a ready UART, putc neither polls nor waits: it writes
      the request (1, 1, ch), which the host decodes back to device 1, command 1 and
      the byte, then the byte to the UART, and frees the lock. */
  lemma PutcOnIdleChannel(m: Machine, ch: bv8)
    requires !m.locked && m.tohost == 0 && m.uartStat & StatTxReady != 0
    ensures PutcF(m, ch) ==
              (m.(tohost := ToHostCmd(ConsoleDevice, CmdPutChar, ch as Word),
                  emitted := m.emitted + PutcEmissions(ch)), Returned)
    ensures var w := PutcF(m, ch).0.tohost;
            FromHostDev(w) == ConsoleDevice && FromHostCmd(w) == CmdPutChar && FromHostData(w) == ch as Word
  {
    DecodeEncode(ConsoleDevice, CmdPutChar, ch as Word);
  }

  /** Against a prompt host and a ready UART, putc returns having consumed at most one
      host step, and leaves the channel as prompt and the UART as ready as it was.
      "Ready" means ready for the whole run: the UART status changes only inside the
      transmit wait, so a byte written to the transmit FIFO never fills it. */
  lemma PutcOnResponsiveConsole(m: Machine, ch: bv8)
    requires !m.locked && m.fromhost == 0 && m.uartStat & StatTxReady != 0
    requires PromptHost(m.hostSteps) && |m.hostSteps| >= 1
    ensures PutcF(m, ch).1 == Returned
    ensures var m' := PutcF(m, ch).0;
            !m'.locked && m'.fromhost == 0 && m'.uartStat == m.uartStat &&
            PromptHost(m'.hostSteps) && |m'.hostSteps| >= |m.hostSteps| - 1
  {
    var held := m.(locked := true);
    if m.tohost != 0 {
      assert CheckF(held) == (held, Returned);
      assert HostAct(held).tohost == 0;
      assert SpinF(held) == (HostAct(held), Returned);
    }
  }

  /** htif_assert(false) returns normally when the console is free, the host
      acknowledges every request at once and the UART is ready for the whole message
      (its status changes only inside the transmit wait, so no write fills it): the
      whole message has then been echoed, in order, on both channels. */
  lemma {:induction false} EmitOnResponsiveConsole(m: Machine, msg: seq<bv8>)
    requires !m.locked && m.fromhost == 0 && m.uartStat & StatTxReady != 0
    requires PromptHost(m.hostSteps) && |m.hostSteps| >= |msg|
    ensures EmitF(m, msg).1 == Returned
    ensures EmitF(m, msg).0.emitted == m.emitted + EchoAll(msg)
    decreases |msg|
  {
    if msg != [] {
      PutcOnResponsiveConsole(m, msg[0]);
      EmitOnResponsiveConsole(PutcF(m, msg[0]).0, msg[1..]);
    }
  }

  /** A console byte b posted in `fromhost` is taken in: the word is cleared and
      the pending buffer then reads back b. */
  lemma ConsoleByteReceived(m: Machine, b: bv8)
    requires m.locked && m.fromhost == ToHostCmd(ConsoleDevice, CmdGetChar, b as Word)
    ensures CheckF(m) == (m.(fromhost := 0, consoleBuf := 1 + b as int), Returned)
    ensures PendingByte(CheckF(m).0.consoleBuf) == Byte(b as int)
  {
    DecodeEncode(ConsoleDevice, CmdGetChar, b as Word);
    assert FromHostData(m.fromhost) & 0xFF == b as Word;
    assert AsUint8(FromHostData(m.fromhost)) == b;
  }

  /** A reply from a device other than the console, seen while putc waits for its
      request to be acknowledged, deadlocks the console: the diagnostic's first
      character needs the lock putc holds, so putc never returns, and every later
      putc waits for that lock for ever. */
  lemma ForeignReplyDeadlocksConsole(m: Machine, ch: bv8)
    requires !m.locked && m.tohost != 0 && m.diagnostic != []
    requires m.fromhost != 0 && FromHostDev(m.fromhost) != ConsoleDevice
    ensures PutcF(m, ch) == (m.(locked := true, fromhost := 0), Hung)
    ensures forall c: bv8 :: PutcF(PutcF(m, ch).0, c).1 == Hung
  {
    var held := m.(locked := true);
    assert CheckF(held) == (held.(fromhost := 0), Hung);
    assert SpinF(held) == (held.(fromhost := 0), Hung);
    assert SetToHostF(held, ConsoleDevice, CmdPutChar, ch as Word) == (held.(fromhost := 0), Hung);
  }

  /** A byte-sized value in the receive FIFO is never mistaken for "no data". */
  lemma ByteReadIsNotSentinel(stat: bv32, rx: bv32)
    requires stat & StatRxValid != 0 && rx < 0x100
    ensures ConsoleRead(stat, rx) != -1
    ensures 0 <= ConsoleRead(stat, rx) < 0x100
  {
  }

  /** A receive FIFO reading 0xFFFFFFFF is indistinguishable from an empty one. */
  lemma AllOnesReadsAsSentinel(stat: bv32)
    requires stat & StatRxValid != 0
    ensures ConsoleRead(stat, 0xFFFF_FFFF) == ConsoleRead(0, 0)
  {
  }
}

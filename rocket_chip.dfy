/** The Rocket Chip platform's console and HTIF handshake (platform.c), imperative.

    `Platform` holds the file's globals (`tohost`, `fromhost`, `htif_console_buf`,
    `io_lock`) and the UART registers as fields, together with what the host and the
    UART will do while the hart waits on them.  CheckFromHost, SetToHost, HtifAssert,
    Putc and HostTurn are proved to leave exactly the state, and to end with exactly
    the status, that CheckF, SetToHostF, EmitF, PutcF and HostAct of HtifConsole
    compute from the state they started in; ConsoleInit and Getc state their new
    state directly.
 */
module RocketChip {
  import opened Htif
  import opened HtifConsole

  class Platform {
    var tohost: Word
    var fromhost: Word
    var consoleBuf: int
    var locked: bool
    var uartRx: bv32
    var uartStat: bv32
    var uartCtrl: bv32
    var hostSteps: seq<HostStep>
    var uartSteps: seq<bv32>
    var emitted: seq<Emission>
    /** The message htif_assert formats for the check at platform.c:54. */
    const diagnostic: seq<bv8>

    function Snapshot(): Machine
      reads this
    {
      Machine(tohost, fromhost, consoleBuf, locked, uartRx, uartStat, uartCtrl,
              hostSteps, uartSteps, emitted, diagnostic)
    }

    /** The state at boot: both HTIF words and the console buffer are zero (their
        static initialisers), and the lock is free (SPIN_LOCK_INIT in early init). */
    constructor (diagnostic: seq<bv8>, uartRx: bv32, uartStat: bv32, uartCtrl: bv32,
                 hostSteps: seq<HostStep>, uartSteps: seq<bv32>)
      ensures Snapshot() == Machine(0, 0, 0, false, uartRx, uartStat, uartCtrl,
                                    hostSteps, uartSteps, [], diagnostic)
    {
      this.tohost, this.fromhost, this.consoleBuf, this.locked := 0, 0, 0, false;
      this.uartRx, this.uartStat, this.uartCtrl := uartRx, uartStat, uartCtrl;
      this.hostSteps, this.uartSteps, this.emitted := hostSteps, uartSteps, [];
      this.diagnostic := diagnostic;
    }

    /** platform_console_init: program the UART control register. */
    method ConsoleInit() returns (r: int)
      modifies this
      ensures r == 0
      ensures Snapshot() == old(Snapshot()).(uartCtrl := CtrlInit)
    {
      uartCtrl := CtrlInit;
      r := 0;
    }

    /** __check_fromhost: read and clear `fromhost`, report a foreign device, and
        dispatch on the command. */
    method CheckFromHost() returns (r: Status)
      requires locked
      modifies this
      decreases 0, 2
      ensures (Snapshot(), r) == CheckF(old(Snapshot()))
    {
      ghost var m0 := Snapshot();
      var fh := fromhost;
      if fh == 0 {
        return Returned;
      }
      fromhost := 0;
      ghost var cleared := Snapshot();
      assert cleared == m0.(fromhost := 0);
      r := HtifAssert(FromHostDev(fh) == ConsoleDevice, diagnostic);
      ghost var reported := (if FromHostDev(fh) == ConsoleDevice then (cleared, Returned)
                             else EmitF(cleared, cleared.diagnostic));
      assert (Snapshot(), r) == reported;
      if r == Hung {
        return;
      }
      ghost var buf := consoleBuf;
      // Command 0 buffers the byte; command 1 (an acknowledgement) and every other
      // command leave the buffer alone.  The diagnostic after `break` in the
      // default case cannot be reached.
      if FromHostCmd(fh) == CmdGetChar {
        consoleBuf := 1 + AsUint8(FromHostData(fh)) as int;
      }
      assert consoleBuf == Dispatch(buf, fh);
    }

    /** __set_tohost: poll `fromhost` while `tohost` is busy, then write the request. */
    method SetToHost(dev: Word, cmd: Word, data: Word) returns (r: Status)
      requires locked
      modifies this
      decreases 0, 4
      ensures (Snapshot(), r) == SetToHostF(old(Snapshot()), dev, cmd, data)
    {
      ghost var m0 := Snapshot();
      while tohost != 0
        invariant locked && diagnostic == m0.diagnostic
        invariant SpinF(Snapshot()) == SpinF(m0)
        decreases |hostSteps|
      {
        ghost var before := Snapshot();
        r := CheckFromHost();
        SpinPolls(before);
        if r == Hung {
          return;
        }
        if hostSteps == [] {
          return Hung;
        }
        HostTurn();
      }
      assert SpinF(m0) == (Snapshot(), Returned);
      var w := ToHostCmd(dev, cmd, data);
      tohost := w;
      emitted := emitted + [ToHost(w)];
      r := Returned;
    }

    /** One turn of the host while the hart spins on `tohost`: the host may clear
        `tohost` to acknowledge the request and may post a reply in `fromhost`. */
    method HostTurn()
      requires hostSteps != []
      modifies this
      ensures Snapshot() == HostAct(old(Snapshot()))
    {
      var step := hostSteps[0];
      hostSteps := hostSteps[1..];
      if step.ack {
        tohost := 0;
      }
      if step.reply != 0 {
        fromhost := step.reply;
      }
    }

    /** htif_assert: when `cond` fails, put the message out character by character;
        execution then goes on. */
    method HtifAssert(cond: bool, msg: seq<bv8>) returns (r: Status)
      modifies this
      decreases if locked then 0 else 1, 1
      ensures (Snapshot(), r) == (if cond then (old(Snapshot()), Returned) else EmitF(old(Snapshot()), msg))
    {
      r := Returned;
      if cond {
        return;
      }
      ghost var m0 := Snapshot();
      for i := 0 to |msg|
        invariant locked == m0.locked && diagnostic == m0.diagnostic
        invariant EmitF(Snapshot(), msg[i..]) == EmitF(m0, msg)
      {
        r := Putc(msg[i]);
        if r == Hung {
          return;
        }
        assert msg[i..][1..] == msg[i + 1..];
      }
      assert msg[|msg|..] == [];
      r := Returned;
    }

    /** platform_console_putc: the byte goes to the host over HTIF and then to the
        UART, all under the console lock. */
    method Putc(ch: bv8) returns (r: Status)
      modifies this
      decreases if locked then 0 else 1, 0
      ensures (Snapshot(), r) == PutcF(old(Snapshot()), ch)
    {
      if locked {
        // spin_lock on a lock this hart already holds
        return Hung;
      }
      locked := true;
      r := SetToHost(ConsoleDevice, CmdPutChar, ch as Word);
      if r == Hung {
        return;
      }
      ghost var m1 := Snapshot();
      while uartStat & StatTxReady == 0
        invariant TxWaitF(Snapshot()) == TxWaitF(m1)
        invariant Snapshot() == m1.(uartStat := uartStat, uartSteps := uartSteps)
        decreases |uartSteps|
      {
        if uartSteps == [] {
          return Hung;
        }
        uartStat := uartSteps[0];
        uartSteps := uartSteps[1..];
      }
      emitted := emitted + [UartTx(ch as bv32)];
      locked := false;
      r := Returned;
    }

    /** platform_console_getc: under the console lock, the receive FIFO if its status
        bit is set, else -1.  `ch` means nothing when the call does not return. */
    method Getc() returns (r: Status, ch: int)
      modifies this
      ensures Snapshot() == old(Snapshot())
      ensures r == Returned <==> !old(locked)
      ensures r == Returned ==> ch == ConsoleRead(uartStat, uartRx)
    {
      if locked {
        return Hung, 0;
      }
      locked := true;
      if uartStat & StatRxValid != 0 {
        ch := AsInt32(uartRx);
      } else {
        ch := -1;
      }
      locked := false;
      r := Returned;
    }
  }

  /** The hart's register width, `__riscv_xlen`. */
  datatype Xlen = Rv32 | Rv64 {
    function Bits(): nat {
      if Rv32? then 32 else 64
    }
  }

  /** pmpcfg permission bits: read, write and execute are bits 0, 1 and 2. */
  const PmpR: bv64 := 1
  const PmpW: bv64 := 2
  const PmpX: bv64 := 4

  /** An `unsigned long` that platform_pmp_region_info writes through a pointer. */
  class ULong {
    var value: bv64
  }

  /** platform_pmp_region_count: the number of PMP regions of a hart. */
  function PmpRegionCount(hartid: bv32): (c: bv32)
    ensures c == 1
  {
    1
  }

  /** platform_pmp_region_info: region 0 grants read, write and execute over the
      whole 2^xlen address space; any other index fails with -1 and writes nothing.
      The three writes happen in the order prot, addr, log2size, so where pointers
      alias, the later write wins. */
  method PmpRegionInfo(xlen: Xlen, hartid: bv32, index: bv32, prot: ULong, addr: ULong, log2size: ULong)
    returns (ret: int)
    modifies prot, addr, log2size
    ensures ret == 0 <==> index < PmpRegionCount(hartid)
    ensures ret == 0 || ret == -1
    ensures ret == 0 ==> log2size.value == xlen.Bits() as bv64
    ensures ret == 0 && addr != log2size ==> addr.value == 0
    ensures ret == 0 && prot != addr && prot != log2size ==> prot.value == PmpR | PmpW | PmpX
    ensures ret != 0 ==> unchanged(prot, addr, log2size)
  {
    ret := 0;
    if index == 0 {
      prot.value := PmpR | PmpW | PmpX;
      addr.value := 0;
      log2size.value := xlen.Bits() as bv64;
    } else {
      ret := -1;
    }
  }
}

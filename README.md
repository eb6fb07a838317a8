# HTIF word codec and Rocket Chip console (OpenSBI platform layer)

This project models two pieces of the firmware's console layer:

- **The HTIF command word** (`Htif`, `htif.dfy`). A `tohost`/`fromhost` word carries
  three fields: the device in bits 63..56, the command in bits 55..48 and a payload in
  bits 47..0. The model has `TOHOST_CMD` in its 64-bit form and in its 32-bit form,
  which traps unless device and command are zero. It also has the three
  `FROMHOST_*` decoders, all as `bv64` functions. The lemmas prove that decoding
  inverts encoding, and that re-encoding inverts decoding. The encoder never masks
  its payload, so the first round trip needs `payload < 2^48`. A concrete lemma
  shows what breaks without that bound.
- **The Rocket Chip HTIF handshake and console** (`HtifConsole`, `htif_console.dfy`;
  `RocketChip`, `rocket_chip.dfy`). The class `RocketChip.Platform` holds the
  platform's mutable state as fields:
  - the globals `tohost`, `fromhost`, `htif_console_buf` and `io_lock`;
  - the UART receive, status and control registers;
  - the ordered list of words written to `tohost` and to the UART transmit FIFO.

  Its methods `CheckFromHost`, `SetToHost`, `HtifAssert`, `Putc`, `Getc` and
  `ConsoleInit` follow the C code statement by statement. `CheckFromHost`,
  `SetToHost`, `HtifAssert` and `Putc` are proved to end in exactly the state and
  status that `CheckF`, `SetToHostF`, `EmitF` and `PutcF` of `HtifConsole` compute
  from the starting snapshot (`Machine`). `ConsoleInit` and `Getc` state their new
  state directly, and `Getc`'s result is `ConsoleRead` of the UART registers. The
  protocol lemmas are stated over those functions. `platform_pmp_region_count` and
  `platform_pmp_region_info` are a function and a method over out-parameter cells.

The busy-waits have no bound in the firmware, so the model feeds them from the
environment:
- one `HostStep` per turn of the `while (tohost)` spin (the host may clear `tohost`
  and may post a reply in `fromhost`);
- one new UART status value per turn of the transmit-not-full spin.

When a wait must continue but the feed is exhausted, the call ends `Hung`: the
firmware would spin there forever. `io_lock` is a held/free flag for a single hart.
Taking it while it is held is also `Hung`, because the holder can only be the caller.

Consequences of the code that the model makes explicit:

- `platform.c:42-44` redefines `TOHOST_CMD` unconditionally to the 64-bit packing.
  The Rocket Chip path therefore always uses `Htif.ToHostCmd`, never the trapping
  32-bit form.
- `__check_fromhost` runs the command `switch` whatever the device. A device other
  than 1 only adds the diagnostic of `platform.c:54`. The `htif_assert(0)` after
  `break` at `platform.c:63` cannot be reached.
- `__check_fromhost` is only reached, through `__set_tohost`, from
  `platform_console_putc`, which holds `io_lock`. The diagnostic for a foreign
  device prints through `platform_console_putc`, which takes `io_lock` again. So whenever the formatted
  message is non-empty, a reply from a device other than 1 deadlocks the console.
  `HtifConsole.ForeignReplyDeadlocksConsole` proves this. When the diagnostic
  returns, the command `switch` runs whatever the device (`HtifConsole.CheckF`).
- `__check_fromhost` stores the pending HTIF byte in `htif_console_buf`, but
  nothing in platform.c reads `htif_console_buf`: `platform_console_getc` reads
  only the UART. The model keeps the two input sources separate.
- `platform_console_getc` assigns the 32-bit receive register to an `int`. The model
  reads it as a two's-complement reinterpretation (`HtifConsole.AsInt32`). A
  register value of `0xFFFFFFFF` is therefore indistinguishable from "no data".
- `platform_console_putc` takes a plain `char`, which is unsigned under the RISC-V
  psABI. The model therefore takes the character as a byte (`bv8`) and widens it with
  zero extension into `TOHOST_CMD(1, 1, ch)` and into the 32-bit UART write. With a
  signed `char`, a byte of 0x80 or more would sign-extend into the device and
  command bytes of the request.
- `PMP_R`, `PMP_W` and `PMP_X` are the pmpcfg permission bits 0, 1 and 2 of the
  RISC-V privileged architecture. `riscv_encoding.h` is not part of this model.

## Model

| member | source | states |
|---|---|---|
| `Htif.FromHostDev` | SBI/opensbi/include/htif/htif.h:17 | the decoded device is below 256 and is exactly bits 63..56 of the word |
| `Htif.FromHostCmd` | SBI/opensbi/include/htif/htif.h:18 | the decoded command is below 256 and is exactly bits 55..48 of the word |
| `Htif.FromHostData` | SBI/opensbi/include/htif/htif.h:19 | the decoded data is below 2^48 and is the word's low 48 bits, zero-extended |
| `Htif.ToHostCmd` | SBI/opensbi/include/htif/htif.h:10-11 | for every input, what each decoder reads back from the packed word: device bits above 7 and command bits above 15 are shifted out, command bits 15..8 are ORed into the device byte, and payload bits 63..48 are ORed into the command and device bytes |
| `Htif.DecodeEncode` | SBI/opensbi/include/htif/htif.h:10-19 | for device < 256, command < 256 and payload < 2^48, the three decoders return device, command and payload |
| `Htif.EncodeDecode` | SBI/opensbi/include/htif/htif.h:10-19 | for every 64-bit word, packing its three decoded fields gives the word back (the fields partition it) |
| `Htif.OversizedPayloadChangesCommand` | SBI/opensbi/include/htif/htif.h:10-11 | without the 2^48 bound the round trip fails: a console-input request with payload 2^48 decodes as command 1 with data 0 |
| `Htif.ToHostCmdNarrow` | SBI/opensbi/include/htif/htif.h:13-15 | the 32-bit variant traps exactly when device or command is non-zero; otherwise it sends the bare payload |
| `Htif.NarrowAgreesWithWide` | SBI/opensbi/include/htif/htif.h:9-16 | where the 32-bit variant does not trap, it sends the word the 64-bit variant sends |
| `HtifConsole.PendingByte` | SBI/opensbi/platform/rocket-chip/platform.c:37 | the buffer value 0 means "nothing pending"; a value v in 1..256 stands for the host byte v − 1 |
| `HtifConsole.AsUint8` | SBI/opensbi/platform/rocket-chip/platform.c:57 | the `(uint8_t)` cast keeps exactly the low byte of the word |
| `HtifConsole.Dispatch` | SBI/opensbi/platform/rocket-chip/platform.c:55-64 | command 0 leaves a non-zero buffer in 1..256 that reads back as the payload's low byte; every other command leaves the buffer unchanged |
| `HtifConsole.HostAct` | SBI/opensbi/platform/rocket-chip/platform.c:69-70 | one host turn during the spin consumes exactly one environment step |
| `HtifConsole.CheckF` | SBI/opensbi/platform/rocket-chip/platform.c:46-65 | only `fromhost` and the buffer can change. With `fromhost == 0` nothing changes. Otherwise `fromhost` is cleared. The call hangs exactly when the device is not 1 and the diagnostic is non-empty. When it returns, the buffer is the command dispatch's result, whatever the device |
| `HtifConsole.SpinF` | SBI/opensbi/platform/rocket-chip/platform.c:69-70 | the spin changes only the HTIF words, the buffer and the host feed. It returns only with `tohost == 0` and returns at once if `tohost` is already 0. A hang leaves the busy `tohost` in place |
| `HtifConsole.SetToHostF` | SBI/opensbi/platform/rocket-chip/platform.c:67-72 | on return `tohost` holds `TOHOST_CMD(dev, cmd, data)`, and that word is the only new emission. On an idle channel nothing is polled. A hang writes nothing. The UART and the lock are untouched |
| `HtifConsole.TxWaitF` | SBI/opensbi/platform/rocket-chip/platform.c:151-152 | the UART wait changes only the status register; it ends exactly when status bit 2 (transmit not full) is set |
| `HtifConsole.PutcF` | SBI/opensbi/platform/rocket-chip/platform.c:143-155 | a held lock hangs. On return the call emits the HTIF request (1, 1, ch) and then the UART byte ch, in that order. `tohost` holds the request, the UART showed transmit-not-full, and the lock is free again. A call that hangs still holds the lock and has emitted nothing, or only the HTIF request: the UART byte is written only after status bit 2 is seen |
| `HtifConsole.EmitF` | SBI/opensbi/include/htif/htif.h:26-27 | putting a message out character by character, on return, emits each character's request and UART byte in order and restores the lock state |
| `HtifConsole.EmitEchoesPrefix` | SBI/opensbi/include/htif/htif.h:26-27 | whether the loop returns or hangs, what it has emitted is a prefix of the message's echo, in order |
| `HtifConsole.AsInt32` | SBI/opensbi/platform/rocket-chip/platform.c:167 | the 32-bit register read as an `int` is its two's-complement value, congruent to it modulo 2^32 |
| `HtifConsole.ConsoleRead` | SBI/opensbi/platform/rocket-chip/platform.c:166-171 | receive-valid clear gives -1; set gives the receive register's value as a 32-bit two's-complement `int` (in range and congruent modulo 2^32, so exactly that value when it is a byte) |
| `HtifConsole.SpinExitsIffAck` | SBI/opensbi/platform/rocket-chip/platform.c:67-72 | while replies come from the console device, the spin ends iff `tohost` is already 0 or the host acknowledges in one of its steps |
| `HtifConsole.TxWaitExitsIffReady` | SBI/opensbi/platform/rocket-chip/platform.c:151-152 | the UART wait ends iff status bit 2 is set now or in one of the values the UART goes through |
| `HtifConsole.EchoAllInOrder` | SBI/opensbi/include/htif/htif.h:26-27 | character i of a message is emitted at positions 2i (HTIF request (1, 1, c)) and 2i+1 (UART byte c) |
| `HtifConsole.PutcOnIdleChannel` | SBI/opensbi/platform/rocket-chip/platform.c:147-154 | on an idle channel with a ready UART, putc neither polls nor waits. Its request decodes back to device 1, command 1 and the byte |
| `HtifConsole.PutcOnResponsiveConsole` | SBI/opensbi/platform/rocket-chip/platform.c:143-155 | against a host that acknowledges at once and a ready UART, putc returns having used at most one host step, and leaves the console as responsive as before |
| `HtifConsole.EmitOnResponsiveConsole` | SBI/opensbi/include/htif/htif.h:21-28 | on a responsive console, a failed `htif_assert` returns normally after emitting the whole message in order on both channels |
| `HtifConsole.ConsoleByteReceived` | SBI/opensbi/platform/rocket-chip/platform.c:48-57 | a posted console byte b clears `fromhost`, sets the buffer to 1 + b, and the buffer reads back as b |
| `HtifConsole.ForeignReplyDeadlocksConsole` | SBI/opensbi/platform/rocket-chip/platform.c:54 | a reply from a device other than 1, seen while putc waits, hangs putc with the lock held, so every later putc hangs too |
| `HtifConsole.ByteReadIsNotSentinel` | SBI/opensbi/platform/rocket-chip/platform.c:160-174 | a byte-sized value in the receive FIFO is returned as itself and is never -1 |
| `HtifConsole.AllOnesReadsAsSentinel` | SBI/opensbi/platform/rocket-chip/platform.c:167-170 | a receive FIFO reading 0xFFFFFFFF returns the same -1 as an empty FIFO |
| `RocketChip.Platform.constructor` | SBI/opensbi/platform/rocket-chip/platform.c:35-38 | at boot `tohost`, `fromhost` and the buffer are 0, the lock is free, and nothing has been emitted |
| `RocketChip.Platform.ConsoleInit` | SBI/opensbi/platform/rocket-chip/platform.c:133-138 | writes 0x13 to the UART control register, changes nothing else, and returns 0 |
| `RocketChip.Platform.CheckFromHost` | SBI/opensbi/platform/rocket-chip/platform.c:46-65 | leaves exactly the state and status `CheckF` computes from the state before the call |
| `RocketChip.Platform.SetToHost` | SBI/opensbi/platform/rocket-chip/platform.c:67-72 | leaves exactly the state and status `SetToHostF` computes; the loop keeps the spin's outcome invariant |
| `RocketChip.Platform.HostTurn` | SBI/opensbi/platform/rocket-chip/platform.c:69-70 | the host's turn in the spin changes the state exactly as `HostAct` says |
| `RocketChip.Platform.HtifAssert` | SBI/opensbi/include/htif/htif.h:21-28 | a true condition changes nothing; a false one puts the message out character by character, as `EmitF` computes, and then returns |
| `RocketChip.Platform.Putc` | SBI/opensbi/platform/rocket-chip/platform.c:143-155 | leaves exactly the state and status `PutcF` computes |
| `RocketChip.Platform.Getc` | SBI/opensbi/platform/rocket-chip/platform.c:160-174 | never waits on the UART. It returns whenever the lock is free, leaves the state unchanged (the lock is released), and yields `ConsoleRead` of the status and receive registers |
| `RocketChip.PmpRegionCount` | SBI/opensbi/platform/rocket-chip/platform.c:102-105 | every hart has exactly one PMP region |
| `RocketChip.PmpRegionInfo` | SBI/opensbi/platform/rocket-chip/platform.c:102-128 | succeeds (0) exactly for indices below `platform_pmp_region_count` (always 1). Region 0 is R\|W\|X over address 0 with log2size xlen. Any other index returns -1 and writes nothing |

## Left out

- The privileged-call trampoline (`src/sbi/sbi.c`): it is inline assembly issuing `ecall`, and its result comes from a trap handler that is not part of this model.
- The Kendryte K210 platform: its console wraps `uarths_*` routines that are not part of this model. Its paging, interrupt-controller, IPI and timer setup is configuration.
- Rocket Chip wiring: PLIC/CLINT initialisation, `plic_fdt_fixup`, `sbi_printf` in early init, reboot and shutdown, and the platform descriptor table. These are configuration or calls into code outside this model.
- `sbi_sprintf` inside `htif_assert`: the formatted message ("htif_assert failed in FILE: LINE") is an opaque byte sequence, the platform's `diagnostic`.
- Concurrency: `io_lock` is a sequential held/free flag for one hart. Multi-hart interleaving and real spinlock semantics are not modelled, so mutual exclusion between harts is not proved.
- Volatile MMIO and unbounded progress: the host and the UART act only through the finite feeds `hostSteps` and `uartSteps`. A wait that outlasts its feed is reported as `Hung` rather than spinning.
- RocketChip.Platform.Getc: the status register is a fixed field, so the model does not capture the UART changing between two reads.
- RocketChip.PmpRegionInfo: where the out-pointers alias, the contract states only the last write to each cell, and not the intermediate values.

/** The HTIF command word (htif.h).

    A `tohost`/`fromhost` word carries three fields: the device in bits 63..56, the
    command in bits 55..48 and a payload in bits 47..0.  The encoder shifts the device
    and the command into place and ORs the payload in WITHOUT masking it, so a payload
    of 2^48 or more spills into the command and device bytes.
 */
module Htif {

  type Word = bv64

  /** The payload field, bits 47..0. */
  const DataMask: Word := 0xFFFF_FFFF_FFFF
  /** 2^48: the first payload that no longer fits its field. */
  const DataLimit: Word := 0x1_0000_0000_0000

  /** FROMHOST_DEV: the device byte, bits 63..56. */
  function FromHostDev(w: Word): (dev: Word)
    ensures dev < 0x100
    ensures dev << 56 == w & 0xFF00_0000_0000_0000
  {
    w >> 56
  }

  /** FROMHOST_CMD: the command byte, bits 55..48. */
  function FromHostCmd(w: Word): (cmd: Word)
    ensures cmd < 0x100
    ensures cmd << 48 == w & 0x00FF_0000_0000_0000
  {
    (w << 8) >> 56
  }

  /** FROMHOST_DATA: the payload, bits 47..0, zero-extended. */
  function FromHostData(w: Word): (data: Word)
    ensures data < DataLimit
    ensures data == w & DataMask
  {
    (w << 16) >> 16
  }

  /** TOHOST_CMD on a 64-bit hart (and, redefined, everywhere in the Rocket Chip
      platform).  Its contract says exactly what a decoder sees in the packed word,
      for every input: device bits above 7 and command bits above 15 are shifted
      out, command bits 15..8 are ORed into the device byte, and payload bits 63..48
      are ORed into the command and device bytes. */
  function ToHostCmd(dev: Word, cmd: Word, payload: Word): (w: Word)
    ensures FromHostDev(w) == (dev | (cmd >> 8) | (payload >> 56)) & 0xFF
    ensures FromHostCmd(w) == (cmd | (payload >> 48)) & 0xFF
    ensures FromHostData(w) == payload & DataMask
  {
    (dev << 56) | (cmd << 48) | payload
  }

  /** Decoding an encoded word returns the three fields when each fits its slot. */
  lemma DecodeEncode(dev: Word, cmd: Word, payload: Word)
    requires dev < 0x100 && cmd < 0x100 && payload < DataLimit
    ensures FromHostDev(ToHostCmd(dev, cmd, payload)) == dev
    ensures FromHostCmd(ToHostCmd(dev, cmd, payload)) == cmd
    ensures FromHostData(ToHostCmd(dev, cmd, payload)) == payload
  {
  }

  /** The three fields partition the word: re-encoding a decoded word gives it back. */
  lemma EncodeDecode(w: Word)
    ensures ToHostCmd(FromHostDev(w), FromHostCmd(w), FromHostData(w)) == w
  {
  }

  /** Without the payload bound the round trip fails: a console-input word whose
      payload has bit 48 set decodes as a console-output acknowledgement. */
  lemma OversizedPayloadChangesCommand()
    ensures FromHostCmd(ToHostCmd(1, 0, DataLimit)) == 1
    ensures FromHostData(ToHostCmd(1, 0, DataLimit)) == 0
  {
  }

  /** What the 32-bit variant of TOHOST_CMD produces: the word, or a trap. */
  datatype Packed = Sent(word: Word) | Trap

  /** TOHOST_CMD on a 32-bit hart: `__builtin_trap()` unless device and command are
      both zero, otherwise the bare payload. */
  function ToHostCmdNarrow(dev: Word, cmd: Word, payload: Word): (p: Packed)
    ensures p == Trap <==> dev != 0 || cmd != 0
    ensures p.Sent? ==> p.word == payload
  {
    if dev != 0 || cmd != 0 then Trap else Sent(payload)
  }

  /** Where the 32-bit variant does not trap, it sends exactly the word the 64-bit
      variant would send; everywhere else it traps. */
  lemma NarrowAgreesWithWide(dev: Word, cmd: Word, payload: Word)
    ensures ToHostCmdNarrow(dev, cmd, payload) ==
            (if dev == 0 && cmd == 0 then Sent(ToHostCmd(dev, cmd, payload)) else Trap)
  {
  }
}

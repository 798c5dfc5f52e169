/** Signal sets of the Wishbone interfaces in hello/core.py: 32-bit data,
    8-bit granularity, one request bundle per master and one response
    bundle per target. */
module Bus {

  /** A value of a 32-bit data line (`dat_w`, `dat_r`). */
  type Word = w: nat | w < 0x1_0000_0000

  /** One byte, the unit of the program image and of the `out` target. */
  type Byte = b: nat | b < 256

  /** What a master drives towards a target on one cycle (the fan-out
      fields of a Wishbone interface). */
  datatype Request = Request(cyc: bool, stb: bool, we: bool, adr: nat, sel: nat, datW: Word)

  /** What a target drives back towards a master on one cycle (the
      fan-in fields). */
  datatype Response = Response(ack: bool, datR: Word)

  /** The combinational default of the fan-in fields: no acknowledge, zero data. */
  const Idle: Response := Response(false, 0)

  /** `dat_w[:8]`: the low eight bits of a data word. */
  function LowByte(w: Word): (b: Byte)
    ensures (w - b) % 256 == 0
    ensures w < 256 ==> b == w
  {
    w % 256
  }
}

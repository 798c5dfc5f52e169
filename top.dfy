/** The composition in hello/core.py (`Top`): the CPU's two buses feed the
    arbiter, whose shared bus goes to an address decoder in front of the
    store and the `out` and `halt` targets. The decoder itself is library
    code; only the base addresses it is given are recorded here. */
module Top {
  import opened Bus
  import opened Arbiter

  /** Base address of the program store's window. */
  const RomBase: nat := 0x0000_0000
  /** Base address of the `out` target, added as a sparse window. */
  const OutBase: nat := 0x8000_0000
  /** Base address of the `halt` target, added as a sparse window. */
  const HaltBase: nat := 0x8000_0004

  /** The arbiter's instruction-bus port as wired from the CPU: `cyc`, `stb`,
      `adr` and `sel` are connected; `we` and `dat_w` are not, so they keep
      their reset value 0. (All six request signals of the data bus are
      connected, so that port carries the CPU's data-bus request unchanged.) */
  function IbusFromCpu(cpu: Request): (r: Request)
    ensures !r.we && r.datW == 0
    ensures r.cyc == cpu.cyc && r.stb == cpu.stb && r.adr == cpu.adr && r.sel == cpu.sel
  {
    Request(cpu.cyc, cpu.stb, false, cpu.adr, cpu.sel, 0)
  }

  /** Instruction fetches are always reads: a write reaches the shared bus
      only while the data bus is granted, and it is then the CPU's own
      data-bus write. */
  lemma InstructionFetchesAreReads(rr: bool, cpuIbus: Request, cpuDbus: Request, sharedResp: Response)
    ensures Route(rr, IbusFromCpu(cpuIbus), cpuDbus, sharedResp).shared.we ==> Favored(rr) == DBus && cpuDbus.we
    ensures Favored(rr) == IBus ==> Route(rr, IbusFromCpu(cpuIbus), cpuDbus, sharedResp).shared.datW == 0
  {
  }
}

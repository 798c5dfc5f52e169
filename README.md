# hello SoC interconnect, modelled in Dafny

A model of `hello/core.py` from the minerva examples: a small synchronous
system-on-chip in which a CPU's instruction bus and data bus share one
Wishbone bus through a two-master arbiter, behind which sit a read-only
program store and two one-byte targets, `out` and `halt`, watched by the
simulation driver.

Modules, one per component:

- `Bus` (`bus.dfy`): the Wishbone signal sets — a master's request
  (`cyc`, `stb`, `we`, `adr`, `sel`, `dat_w`) and a target's response
  (`ack`, `dat_r`) — with 32-bit words and bytes as subset types.
- `Rom` (`rom.dfy`): `WishboneROM`, a class with the registered `ack` bit
  and the registered read-port output over an immutable word sequence; its
  `Tick` method is proved against `RomStep`, and whole runs (`RomRun`)
  carry the acknowledge and read-back properties.
- `Arbiter` (`arbiter.dfy`): `WishboneArbiter`, a class with the grant bit
  `rr`; `Route` is the combinational connection of the favoured master to
  the shared bus, `NextRr` the grant update that `Tick` is proved against,
  and `Grants` a run of the grant bit, about which mutual exclusion,
  stickiness and freedom from starvation are proved.
- `Image` (`image.dfy`): the program-image loader — bytes taken four at a
  time as little-endian words, stopping at end of file or at the first zero
  word — with its little-endian encoder and round-trip lemmas.
- `Driver` (`driver.dfy`): the simulation loop that emits the low byte of
  each write to `out`, acknowledges it, and stops when `halt` is addressed;
  the `Process` loop is proved against the recursive specification `Drive`.
- `Top` (`top.dfy`): the wiring of the CPU's instruction bus into the
  arbiter (no write lines) and the decoder's base addresses.

The model follows the code: `out` is acknowledged by the driver itself on
the cycle it samples the request, after which it skips one cycle, and the
run ends when `halt` is addressed.

The decoder's base addresses (hello/core.py:68-70) are kept as the
constants `Top.RomBase` (0x0000_0000), `Top.OutBase` (0x8000_0000) and
`Top.HaltBase` (0x8000_0004).

## Model

| member | source | states |
|---|---|---|
| `Bus.LowByte` | hello/core.py:110 | `dat_w[:8]` is the byte congruent to the word modulo 256, and the word itself when it already fits in a byte |
| `Rom.AddrWidth` | hello/core.py:18-22 | the read port's address width can index every word of the image, and for an image of more than one word it is the smallest such width |
| `Rom.ReadWord` | hello/core.py:18-24 | the word read for an in-range address is that image word; any non-zero word read comes from the image |
| `Rom.NextAck` | hello/core.py:26-28 | `ack` never stays high two cycles; from low it rises exactly when `cyc & stb` |
| `Rom.RomStep` | hello/core.py:18-28 | one clock edge: `ack` rises only on a strobed cycle seen while it was low, always rises then, and the data register holds the image word at the bus address |
| `Rom.RomRun` | hello/core.py:26-28 | a run from a start state has one state per cycle, each the clock-edge successor of the one before |
| `Rom.WishboneROM.constructor` | hello/core.py:11-13 | the store holds the given image and both registers start at 0 |
| `Rom.WishboneROM.Tick` | hello/core.py:21-28 | the new register values are the clock-edge successor of the old ones; `ack` is set exactly when `cyc & stb & ~ack` held; the image is a constant |
| `Rom.AckNeverTwiceInARow` | hello/core.py:26-28 | on no two consecutive cycles of a run is `ack` high |
| `Rom.HeldRequestAlternates` | hello/core.py:26-28 | under a held `cyc`/`stb`, `ack` toggles every cycle, so each acknowledge lasts one cycle |
| `Rom.HeldRequestFromReset` | hello/core.py:26-28 | from reset, under a held request, `ack` is high exactly on the odd cycles |
| `Rom.AckedWordIsRequested` | hello/core.py:18-28 | an acknowledged cycle follows a strobed cycle, and with the address held it returns the image word at that address |
| `Rom.WritesChangeNothing` | hello/core.py:18-28 | two request streams that differ only in `we`, `sel` and `dat_w` give the same acknowledges and read data: writes never change the store |
| `Arbiter.NextRr` | hello/core.py:44-51 | the grant never moves while the favoured master holds `cyc`, and it moves exactly when the favoured master has dropped `cyc` and the other is requesting |
| `Arbiter.Route` | hello/core.py:44-49 | the shared bus carries the favoured master's request, its response goes to that master, and the other master sees `ack = 0`, `dat_r = 0` |
| `Arbiter.NoDoubleGrant` | hello/core.py:44-49 | the two masters are never acknowledged on the same cycle, and a shared `cyc` always comes from a requesting master |
| `Arbiter.WishboneArbiter.constructor` | hello/core.py:42 | `rr` resets to 0, favouring the instruction bus |
| `Arbiter.WishboneArbiter.Connect` | hello/core.py:44-49 | the connections for the current `rr`: the favoured master's request on the shared bus, the shared response to the favoured master, the idle response to the other |
| `Arbiter.WishboneArbiter.Tick` | hello/core.py:44-51 | the new `rr` is the grant update of the old one for the two `cyc` signals |
| `Arbiter.Grants` | hello/core.py:42-51 | a run of the grant bit has one value per cycle, each the grant update of the one before |
| `Arbiter.GrantChangesOnlyAtBoundary` | hello/core.py:46-51 | whenever the grant changes in a run, the favoured master had dropped `cyc` and the other was requesting |
| `Arbiter.HeldGrantNeverPreempted` | hello/core.py:44-51 | a favoured master that keeps `cyc` high over an interval keeps the grant over it |
| `Arbiter.NoStarvation` | hello/core.py:44-51 | a waiting master that keeps requesting is granted from the cycle after the favoured master drops `cyc`, and keeps the grant for as long as it goes on requesting |
| `Arbiter.ResetFavorsInstructionBus` | hello/core.py:42-49 | after reset the instruction bus is the one connected to the shared bus and receives its response |
| `Image.LeValue` | hello/core.py:101 | the little-endian value of n bytes is below 256^n, and is zero exactly when every byte is zero |
| `Image.DecodeEncode` | hello/core.py:101 | decoding the n-byte little-endian encoding of a value below 256^n gives the value back |
| `Image.EncodeDecode` | hello/core.py:101 | encoding the decoded value of a byte string in as many bytes gives the string back |
| `Image.EncodeWord` | hello/core.py:101 | a word is stored as four bytes whose little-endian value is the word |
| `Image.Chunk` | hello/core.py:101 | the `k`-th four-byte read returns at most four bytes: four, or what is left at end of file |
| `Image.ChunkFits` | hello/core.py:101 | any read of at most four bytes decodes to a 32-bit word |
| `Image.LoadWords` | hello/core.py:101 | the loaded list contains no zero word and at most one word per four bytes (rounded up) |
| `Image.LoadWordsAt` | hello/core.py:101 | the k-th loaded word is the little-endian value of the k-th group of four (or, at end of file, fewer) bytes |
| `Image.LoadWordsStops` | hello/core.py:101 | loading stops at end of file or at a group whose value is zero |
| `Image.EncodeWords` | hello/core.py:101 | an image of n words is 4n bytes long |
| `Image.LoadEncodedWords` | hello/core.py:101 | non-zero words encoded little-endian and followed by anything that loads as nothing are loaded back exactly |
| `Image.LoadEncodedImage` | hello/core.py:101 | round trip: the encoding of non-zero words loads as those words |
| `Image.ZeroWordEndsImage` | hello/core.py:101 | a zero word ends the image: whatever follows it is not loaded |
| `Driver.Halts` | hello/core.py:107 | a cycle on which `halt` has both `cyc` and `stb` high; no contract of its own |
| `Driver.OutActive` | hello/core.py:108 | a cycle on which `out` has both `cyc` and `stb` high; no contract of its own |
| `Driver.EmitOf` | hello/core.py:108-110 | a sample emits exactly one byte, the low byte of `dat_w`, when it is a write, and none otherwise |
| `Driver.Drive` | hello/core.py:107-114 | the recursive specification of the driver loop; no contract of its own: its properties are the lemmas below and `Process`'s ensures |
| `Driver.Process` | hello/core.py:106-114 | the driver loop produces exactly the outcome of the recursive run specification: emitted bytes, acknowledged cycles and whether it halted |
| `Driver.AcksAreOutRequests` | hello/core.py:108-114 | the driver acknowledges only strobed cycles on `out`, and never two consecutive cycles |
| `Driver.EmitsAckedWrites` | hello/core.py:108-110 | the emitted bytes are exactly the low data bytes of the acknowledged write cycles, in order |
| `Driver.EveryVisitedRequestAcked` | hello/core.py:107-114 | every strobed cycle on `out` before any halt is acknowledged, unless it is the cycle skipped right after an acknowledge |
| `Driver.HaltsAfterLastAck` | hello/core.py:107-114 | a halted run stopped on a cycle addressing `halt` that the loop looked at, after every acknowledged cycle; every earlier cycle addressing `halt` was one skipped after an acknowledge |
| `Driver.UnhaltedSawNoHalt` | hello/core.py:107-114 | a run that did not halt never looked at a cycle addressing `halt`: each such cycle was skipped after an acknowledge |
| `Driver.NothingAfterHalt` | hello/core.py:107 | cycles after the halt do not change the run's outcome |
| `Driver.HelloRun` | hello/core.py:107-114 | writing 'H' then 'i', each followed by its acknowledge cycle, then addressing `halt` emits "Hi" and halts |
| `Top.IbusFromCpu` | hello/core.py:76-82 | the instruction-bus port carries the CPU's `cyc`, `stb`, `adr`, `sel`, with `we` and `dat_w` held at 0 |
| `Top.InstructionFetchesAreReads` | hello/core.py:76-93 | a write reaches the shared bus only while the data bus is granted, and only as the CPU's data-bus write |

## Left out

- The address decoder (`wishbone.Decoder`, hello/core.py:67-71) is library code that is not part of this model; only its three base addresses are kept, as constants in `Top`. No claim is made about how sparse windows decode, and so no combined cycle of arbiter, decoder and store is modelled.
- The Minerva CPU (hello/core.py:75) is not part of this model; its bus signals are free inputs to every member.
- The hardware-description machinery — `Module`, `Memory`, `connect`, elaboration and the simulator — is replaced by explicit functions and `Tick` methods; `connect` is written out as `Route`. The read port's data register is taken to reset to 0, where the framework may preset it to the image's first word; nothing on the bus depends on it, since `ack` is 0 at reset and the register is overwritten on the first clock edge.
- Opening and reading `hello.bin` (hello/core.py:100-101): only the pure byte-to-word decoding is modelled, over a byte sequence given as a parameter.
- Console output through `sys.stdout.write` and `chr` (hello/core.py:110): the emitted bytes are returned instead.
- The clock period `add_clock(1e-6)` (hello/core.py:116): time is counted in cycles.
- Rom.ReadWord: when the truncated address falls past the end of a memory whose depth is not a power of two, the value the framework's memory gives is not modelled; the model reads 0 there.
- Driver.Process: a trace is finite, so a run that never sees `halt` ends unhalted at the end of the trace, where the source loops forever; the driver's `out.ack` pulse is recorded as the list of acknowledged cycles rather than driven back into the bus.
- Bus widths (29-bit and 30-bit addresses, 4-bit `sel`) are not enforced: addresses and byte selects are unbounded naturals, and the byte lanes are ignored, as the store ignores them. The `out` and `halt` interfaces are 8 bits wide (hello/core.py:58) but share the 32-bit `Request` here; the driver only ever takes the low byte of `dat_w`, so the wider value changes nothing.

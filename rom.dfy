/** The read-only program store of hello/core.py (`WishboneROM`): a word
    memory with a clocked read port, answering on a Wishbone bus with a
    one-cycle registered acknowledge. */
module Rom {
  import opened Bus

  function Pow2(k: nat): (p: nat)
    ensures p >= 1
  {
    if k == 0 then 1 else 2 * Pow2(k - 1)
  }

  /** Number of binary digits of `n` (0 for 0), as Python's `int.bit_length`. */
  function BitLength(n: nat): (k: nat)
    ensures n < Pow2(k)
    ensures k > 0 ==> Pow2(k - 1) <= n
  {
    if n == 0 then 0 else 1 + BitLength(n / 2)
  }

  /** Width of the memory's read-address port: the framework sizes it to hold
      `range(depth)`, which is `max(1, bit_length(depth - 1))` bits, or none
      at all for an empty memory. */
  function AddrWidth(depth: nat): (w: nat)
    ensures depth <= Pow2(w)
    ensures depth > 1 ==> Pow2(w - 1) < depth
  {
    if depth == 0 then 0
    else if BitLength(depth - 1) == 0 then 1
    else BitLength(depth - 1)
  }

  /** Truncating an index that already fits leaves it unchanged. */
  lemma TruncateFitting(i: nat, p: nat)
    requires i < p
    ensures i % p == i
  {
  }

  /** The word the read port presents one cycle after `adr` is put on the
      bus. The 29-bit bus address is cut down to the port's width; a
      truncated index past the end of the image reads as zero. */
  function ReadWord(words: seq<Word>, adr: nat): (w: Word)
    ensures adr < |words| ==> w == words[adr]
    ensures w != 0 ==> w in words
  {
    var i := adr % Pow2(AddrWidth(|words|));
    if adr < |words| then TruncateFitting(adr, Pow2(AddrWidth(|words|))); words[i]
    else if i < |words| then words[i] else 0
  }

  /** Next value of the `ack` register: cleared on every tick, set when a
      strobed cycle is seen while `ack` is low. */
  function NextAck(ack: bool, cyc: bool, stb: bool): (next: bool)
    ensures ack ==> !next
    ensures !ack ==> (next <==> cyc && stb)
  {
    cyc && stb && !ack
  }

  /** The two registers of the store: `ack` and the read port's data output,
      which drives `dat_r`. */
  datatype RomState = RomState(ack: bool, datR: Word)

  /** Both registers hold their reset value 0. */
  const Reset: RomState := RomState(false, 0)

  /** One clock edge of the store, given the bus request seen on that cycle. */
  function RomStep(words: seq<Word>, s: RomState, bus: Request): (s': RomState)
    ensures s'.ack ==> bus.cyc && bus.stb && !s.ack
    ensures !s.ack && bus.cyc && bus.stb ==> s'.ack
    ensures bus.adr < |words| ==> s'.datR == words[bus.adr]
  {
    RomState(NextAck(s.ack, bus.cyc, bus.stb), ReadWord(words, bus.adr))
  }

  /** The register values on every cycle of a run that starts in `s0` and
      sees the requests `reqs`, one per cycle. */
  function RomRun(words: seq<Word>, s0: RomState, reqs: seq<Request>): (states: seq<RomState>)
    ensures |states| == |reqs| + 1 && states[0] == s0
    ensures forall k :: 0 <= k < |reqs| ==> states[k + 1] == RomStep(words, states[k], reqs[k])
    decreases |reqs|
  {
    if reqs == [] then [s0]
    else [s0] + RomRun(words, RomStep(words, s0, reqs[0]), reqs[1..])
  }

  class WishboneROM {
    /** The program image; fixed when the store is built. */
    const romInit: seq<Word>
    /** The registered acknowledge. */
    var ack: bool
    /** The registered output of the read port, driven onto `dat_r`. */
    var datR: Word

    constructor (romInit: seq<Word>)
      ensures this.romInit == romInit
      ensures State() == Reset
    {
      this.romInit := romInit;
      ack := false;
      datR := 0;
    }

    function State(): RomState
      reads this
    {
      RomState(ack, datR)
    }

    /** One clock edge with `bus` on the store's Wishbone port. */
    method Tick(bus: Request)
      modifies this
      ensures State() == RomStep(romInit, old(State()), bus)
      ensures ack <==> bus.cyc && bus.stb && !old(ack)
    {
      var next := false;
      if bus.cyc && bus.stb && !ack {
        next := true;
      }
      ack := next;
      datR := ReadWord(romInit, bus.adr);
    }
  }

  /** The acknowledge is never high on two consecutive cycles. */
  lemma AckNeverTwiceInARow(words: seq<Word>, s0: RomState, reqs: seq<Request>, k: nat)
    requires k < |reqs|
    ensures !(RomRun(words, s0, reqs)[k].ack && RomRun(words, s0, reqs)[k + 1].ack)
  {
    var states := RomRun(words, s0, reqs);
    assert states[k + 1] == RomStep(words, states[k], reqs[k]);
  }

  /** A master that holds `cyc` and `stb` high is acknowledged on every
      other cycle: each acknowledge lasts one cycle and the next one needs
      a fresh request. From reset, the acknowledged cycles are the odd ones. */
  lemma {:induction false} HeldRequestAlternates(words: seq<Word>, s0: RomState, reqs: seq<Request>)
    requires forall k :: 0 <= k < |reqs| ==> reqs[k].cyc && reqs[k].stb
    ensures forall k :: 0 <= k <= |reqs| ==> (RomRun(words, s0, reqs)[k].ack <==> (s0.ack != (k % 2 == 1)))
    decreases |reqs|
  {
    var states := RomRun(words, s0, reqs);
    if reqs != [] {
      var s1 := RomStep(words, s0, reqs[0]);
      HeldRequestAlternates(words, s1, reqs[1..]);
      var rest := RomRun(words, s1, reqs[1..]);
      assert states == [s0] + rest;
      forall k | 1 <= k <= |reqs|
        ensures states[k].ack <==> (s0.ack != (k % 2 == 1))
      {
        assert states[k] == rest[k - 1];
      }
    }
  }

  /** From reset, under a held request, acknowledges fall exactly on the odd cycles. */
  lemma HeldRequestFromReset(words: seq<Word>, reqs: seq<Request>, k: nat)
    requires forall j :: 0 <= j < |reqs| ==> reqs[j].cyc && reqs[j].stb
    requires k <= |reqs|
    ensures RomRun(words, Reset, reqs)[k].ack <==> k % 2 == 1
  {
    HeldRequestAlternates(words, Reset, reqs);
  }

  /** On an acknowledged cycle `dat_r` carries the image word at the address
      of the request that was acknowledged; if the master held its address,
      that is the word at the address still on the bus. */
  lemma AckedWordIsRequested(words: seq<Word>, s0: RomState, reqs: seq<Request>, k: nat)
    requires k + 1 < |reqs|
    requires reqs[k + 1].adr == reqs[k].adr < |words|
    requires RomRun(words, s0, reqs)[k + 1].ack
    ensures reqs[k].cyc && reqs[k].stb
    ensures RomRun(words, s0, reqs)[k + 1].datR == words[reqs[k + 1].adr]
  {
    var states := RomRun(words, s0, reqs);
    assert states[k + 1] == RomStep(words, states[k], reqs[k]);
  }

  /** Two request streams that agree on `cyc`, `stb` and `adr` on every cycle. */
  ghost predicate SameReads(reqs: seq<Request>, reqs': seq<Request>)
  {
    |reqs| == |reqs'| &&
    forall k :: 0 <= k < |reqs| ==>
      reqs[k].cyc == reqs'[k].cyc && reqs[k].stb == reqs'[k].stb && reqs[k].adr == reqs'[k].adr
  }

  /** Writes have no effect on the store: whatever `we`, `sel` and `dat_w`
      carry, the acknowledges and the words read back are the same. */
  lemma {:induction false} WritesChangeNothing(words: seq<Word>, s0: RomState, reqs: seq<Request>, reqs': seq<Request>)
    requires SameReads(reqs, reqs')
    ensures RomRun(words, s0, reqs) == RomRun(words, s0, reqs')
    decreases |reqs|
  {
    if reqs != [] {
      var s1 := RomStep(words, s0, reqs[0]);
      assert s1 == RomStep(words, s0, reqs'[0]);
      assert SameReads(reqs[1..], reqs'[1..]) by {
        forall k | 0 <= k < |reqs| - 1
          ensures reqs[1..][k].cyc == reqs'[1..][k].cyc && reqs[1..][k].stb == reqs'[1..][k].stb
          ensures reqs[1..][k].adr == reqs'[1..][k].adr
        {
          assert reqs[1..][k] == reqs[k + 1] && reqs'[1..][k] == reqs'[k + 1];
        }
      }
      WritesChangeNothing(words, s1, reqs[1..], reqs'[1..]);
    }
  }
}

/** The simulation driver of hello/core.py (lines 106-114): once per clock
    cycle it looks at the `out` and `halt` targets; a strobed cycle on `out`
    is acknowledged for that cycle (the driver then skips the next cycle),
    and its low data byte is emitted when it is a write; the run ends on
    the first cycle with a strobed cycle on `halt`. */
module Driver {
  import opened Bus

  /** What the driver can see of the two targets on one cycle. */
  datatype Sample = Sample(out: Request, haltCyc: bool, haltStb: bool)

  /** Everything the driver produced: the bytes written to the console, the
      cycles on which it raised `out.ack`, and whether it saw a halt. */
  datatype Outcome = Outcome(emitted: seq<Byte>, acked: seq<nat>, halted: bool)

  predicate Halts(s: Sample)
  {
    s.haltCyc && s.haltStb
  }

  predicate OutActive(s: Sample)
  {
    s.out.cyc && s.out.stb
  }

  /** The byte a sample emits: the low byte of `dat_w` on a write, nothing otherwise. */
  function EmitOf(s: Sample): (e: seq<Byte>)
    ensures |e| <= 1
    ensures e != [] <==> s.out.we
    ensures s.out.we ==> e == [LowByte(s.out.datW)]
  {
    if s.out.we then [LowByte(s.out.datW)] else []
  }

  /** The bytes emitted by the samples at the cycles `ts`, in that order. */
  function EmittedAt(trace: seq<Sample>, ts: seq<nat>): (e: seq<Byte>)
    requires forall i :: 0 <= i < |ts| ==> ts[i] < |trace|
    ensures |e| <= |ts|
  {
    if ts == [] then [] else EmitOf(trace[ts[0]]) + EmittedAt(trace, ts[1..])
  }

  /** The driver's run over the samples `trace`, from cycle `t` on. A run
      that reaches the end of the trace without seeing a halt ends there
      unhalted. */
  function Drive(trace: seq<Sample>, t: nat): Outcome
    decreases |trace| - t
  {
    if t >= |trace| then Outcome([], [], false)
    else if Halts(trace[t]) then Outcome([], [], true)
    else if OutActive(trace[t]) then
      var rest := Drive(trace, t + 2);
      Outcome(EmitOf(trace[t]) + rest.emitted, [t] + rest.acked, rest.halted)
    else Drive(trace, t + 1)
  }

  /** The driver loop itself, stopped also at the end of the trace. */
  method Process(trace: seq<Sample>) returns (r: Outcome)
    ensures r == Drive(trace, 0)
  {
    var emitted: seq<Byte> := [];
    var acked: seq<nat> := [];
    var t := 0;
    while t < |trace| && !Halts(trace[t])
      invariant Drive(trace, 0).emitted == emitted + Drive(trace, t).emitted
      invariant Drive(trace, 0).acked == acked + Drive(trace, t).acked
      invariant Drive(trace, 0).halted == Drive(trace, t).halted
      decreases |trace| - t
    {
      if OutActive(trace[t]) {
        SkipAckCycle(trace, t, emitted, acked);
        emitted := emitted + EmitOf(trace[t]);
        acked := acked + [t];
        t := t + 2;
      } else {
        t := t + 1;
      }
    }
    assert emitted + [] == emitted && acked + [] == acked;
    r := Outcome(emitted, acked, t < |trace|);
  }

  /** One acknowledged cycle of the loop: the byte and the cycle are taken
      into the outcome, and the run goes on two cycles later. */
  lemma SkipAckCycle(trace: seq<Sample>, t: nat, emitted: seq<Byte>, acked: seq<nat>)
    requires t < |trace| && !Halts(trace[t]) && OutActive(trace[t])
    ensures emitted + Drive(trace, t).emitted == (emitted + EmitOf(trace[t])) + Drive(trace, t + 2).emitted
    ensures acked + Drive(trace, t).acked == (acked + [t]) + Drive(trace, t + 2).acked
    ensures Drive(trace, t).halted == Drive(trace, t + 2).halted
  {
    var rest := Drive(trace, t + 2);
    assert emitted + (EmitOf(trace[t]) + rest.emitted) == (emitted + EmitOf(trace[t])) + rest.emitted;
    assert acked + ([t] + rest.acked) == (acked + [t]) + rest.acked;
  }

  /** The driver acknowledges only strobed cycles on `out`, inside the trace
      and from cycle `t` on, and never on two consecutive cycles. */
  lemma {:induction false} AcksAreOutRequests(trace: seq<Sample>, t: nat)
    ensures forall i :: 0 <= i < |Drive(trace, t).acked| ==>
      t <= Drive(trace, t).acked[i] < |trace| && OutActive(trace[Drive(trace, t).acked[i]])
    ensures forall i, j :: 0 <= i < j < |Drive(trace, t).acked| ==>
      Drive(trace, t).acked[i] + 2 <= Drive(trace, t).acked[j]
    decreases |trace| - t
  {
    if t < |trace| && !Halts(trace[t]) {
      if OutActive(trace[t]) {
        AcksAreOutRequests(trace, t + 2);
        var rest := Drive(trace, t + 2).acked;
        assert Drive(trace, t).acked == [t] + rest;
      } else {
        AcksAreOutRequests(trace, t + 1);
      }
    }
  }

  /** The bytes emitted are exactly the low data bytes of the acknowledged
      cycles that were writes, in cycle order. */
  lemma {:induction false} EmitsAckedWrites(trace: seq<Sample>, t: nat)
    ensures forall i :: 0 <= i < |Drive(trace, t).acked| ==> Drive(trace, t).acked[i] < |trace|
    ensures Drive(trace, t).emitted == EmittedAt(trace, Drive(trace, t).acked)
    decreases |trace| - t
  {
    AcksAreOutRequests(trace, t);
    if t < |trace| && !Halts(trace[t]) {
      if OutActive(trace[t]) {
        EmitsAckedWrites(trace, t + 2);
        var acked := Drive(trace, t).acked;
        assert acked == [t] + Drive(trace, t + 2).acked;
        assert acked[1..] == Drive(trace, t + 2).acked;
      } else {
        EmitsAckedWrites(trace, t + 1);
      }
    }
  }

  /** Cycle `j` is the one the driver skips: it acknowledged cycle `j - 1`
      and waited out that acknowledge instead of looking at cycle `j`. */
  ghost predicate Skipped(r: Outcome, t: nat, j: nat)
  {
    j > t && j - 1 in r.acked
  }

  /** Every strobed cycle on `out` that the loop reaches before a halt is
      acknowledged, unless it is the cycle skipped after an acknowledge. */
  lemma {:induction false} EveryVisitedRequestAcked(trace: seq<Sample>, t: nat, i: nat)
    requires t <= i < |trace|
    requires forall j :: t <= j <= i ==> !Halts(trace[j])
    requires OutActive(trace[i])
    ensures i in Drive(trace, t).acked || Skipped(Drive(trace, t), t, i)
    decreases |trace| - t
  {
    if OutActive(trace[t]) {
      var acked := Drive(trace, t).acked;
      assert acked == [t] + Drive(trace, t + 2).acked;
      if i >= t + 2 {
        EveryVisitedRequestAcked(trace, t + 2, i);
      }
    } else if t < i {
      EveryVisitedRequestAcked(trace, t + 1, i);
    }
  }

  /** A run that halts does so on the first cycle it looks at where `halt`
      is addressed: any earlier such cycle was skipped after an acknowledge,
      and every acknowledged cycle comes before the halt, so nothing is
      acknowledged or emitted past it. */
  lemma {:induction false} HaltsAfterLastAck(trace: seq<Sample>, t: nat)
    requires Drive(trace, t).halted
    ensures exists h :: (t <= h < |trace| && Halts(trace[h]) && !Skipped(Drive(trace, t), t, h) &&
                          (forall i :: 0 <= i < |Drive(trace, t).acked| ==> Drive(trace, t).acked[i] < h) &&
                          forall j :: t <= j < h && Halts(trace[j]) ==> Skipped(Drive(trace, t), t, j))
    decreases |trace| - t
  {
    var r := Drive(trace, t);
    if !Halts(trace[t]) {
      var next := if OutActive(trace[t]) then t + 2 else t + 1;
      var rest := Drive(trace, next);
      HaltsAfterLastAck(trace, next);
      AcksAreOutRequests(trace, next);
      var h :| (next <= h < |trace| && Halts(trace[h]) && !Skipped(rest, next, h) &&
                (forall i :: 0 <= i < |rest.acked| ==> rest.acked[i] < h) &&
                forall j :: next <= j < h && Halts(trace[j]) ==> Skipped(rest, next, j));
      if OutActive(trace[t]) {
        assert r.acked == [t] + rest.acked;
      } else {
        assert r.acked == rest.acked;
      }
      assert h - 1 in r.acked ==> h - 1 == t || h - 1 in rest.acked;
      assert !Skipped(r, t, h);
      assert forall i :: 0 <= i < |r.acked| ==> r.acked[i] < h;
      forall j | t <= j < h && Halts(trace[j])
        ensures Skipped(r, t, j)
      {
        if j >= next {
          assert Skipped(rest, next, j);
        }
      }
    } else {
      assert r.acked == [];
      assert !Skipped(r, t, t);
    }
  }

  /** A run that does not halt never looked at a cycle where `halt` is
      addressed: each such cycle was skipped after an acknowledge. */
  lemma {:induction false} UnhaltedSawNoHalt(trace: seq<Sample>, t: nat)
    requires !Drive(trace, t).halted
    ensures forall j :: t <= j < |trace| && Halts(trace[j]) ==> Skipped(Drive(trace, t), t, j)
    decreases |trace| - t
  {
    var r := Drive(trace, t);
    if t < |trace| {
      var next := if OutActive(trace[t]) then t + 2 else t + 1;
      var rest := Drive(trace, next);
      UnhaltedSawNoHalt(trace, next);
      if OutActive(trace[t]) {
        assert r.acked == [t] + rest.acked;
      }
      forall j | t <= j < |trace| && Halts(trace[j])
        ensures Skipped(r, t, j)
      {
        if j >= next {
          assert Skipped(rest, next, j);
        }
      }
    }
  }

  /** The run is decided by the samples up to the halt: appending further
      cycles to a trace that halts changes nothing. */
  lemma {:induction false} NothingAfterHalt(trace: seq<Sample>, more: seq<Sample>, t: nat)
    requires Drive(trace, t).halted
    ensures Drive(trace + more, t) == Drive(trace, t)
    decreases |trace| - t
  {
    var all := trace + more;
    assert t < |trace|;
    assert all[t] == trace[t];
    if !Halts(trace[t]) {
      if OutActive(trace[t]) {
        NothingAfterHalt(trace, more, t + 2);
      } else {
        NothingAfterHalt(trace, more, t + 1);
      }
    }
  }

  /** A cycle that writes byte `b` to `out`. */
  function WriteOut(b: Byte): Sample
  {
    Sample(Request(true, true, true, 0, 1, b), false, false)
  }

  /** A cycle with neither target addressed. */
  const Quiet: Sample := Sample(Request(false, false, false, 0, 0, 0), false, false)

  /** A cycle that addresses `halt`. */
  const HaltNow: Sample := Sample(Request(false, false, false, 0, 0, 0), true, true)

  /** Writing 'H' and 'i', each followed by the acknowledge cycle, and then
      addressing `halt` prints "Hi" and stops. */
  lemma HelloRun()
    ensures Drive([WriteOut(0x48), Quiet, WriteOut(0x69), Quiet, HaltNow], 0)
         == Outcome([0x48, 0x69], [0, 2], true)
  {
    var trace := [WriteOut(0x48), Quiet, WriteOut(0x69), Quiet, HaltNow];
    assert Drive(trace, 4) == Outcome([], [], true);
    assert Drive(trace, 2) == Outcome([0x69], [2], true);
  }
}

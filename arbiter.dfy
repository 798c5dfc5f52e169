/** The two-master arbiter of hello/core.py (`WishboneArbiter`): one
    registered bit `rr` chooses which of the instruction bus and the data
    bus is connected to the shared bus; the choice is sticky and only moves
    to the other master when the favoured one has dropped `cyc`. */
module Arbiter {
  import opened Bus

  datatype Master = IBus | DBus

  function Other(m: Master): (o: Master)
    ensures o != m
  {
    match m
    case IBus => DBus
    case DBus => IBus
  }

  /** The master `rr` favours: 0 selects the instruction bus, 1 the data bus. */
  function Favored(rr: bool): (m: Master)
    ensures m == DBus <==> rr
  {
    if rr then DBus else IBus
  }

  /** The `cyc` signal of master `m`, given both masters' `cyc`. */
  function CycOf(m: Master, ibusCyc: bool, dbusCyc: bool): bool
  {
    match m
    case IBus => ibusCyc
    case DBus => dbusCyc
  }

  /** The value `rr` takes at the next clock edge. */
  function NextRr(rr: bool, ibusCyc: bool, dbusCyc: bool): (next: bool)
    ensures CycOf(Favored(rr), ibusCyc, dbusCyc) ==> next == rr
    ensures next != rr <==> !CycOf(Favored(rr), ibusCyc, dbusCyc) && CycOf(Other(Favored(rr)), ibusCyc, dbusCyc)
  {
    if rr then
      if !dbusCyc && ibusCyc then false else rr
    else
      if !ibusCyc && dbusCyc then true else rr
  }

  /** The combinational connections for one cycle. */
  datatype Routing = Routing(shared: Request, ibusResp: Response, dbusResp: Response)

  function RequestOf(m: Master, ibus: Request, dbus: Request): Request
  {
    match m
    case IBus => ibus
    case DBus => dbus
  }

  function ResponseTo(m: Master, r: Routing): Response
  {
    match m
    case IBus => r.ibusResp
    case DBus => r.dbusResp
  }

  /** Which master reaches the shared bus this cycle: the favoured master's
      request is forwarded unchanged and the shared bus's response goes back
      to it alone; the other master sees the idle response. */
  function Route(rr: bool, ibus: Request, dbus: Request, sharedResp: Response): (r: Routing)
    ensures r.shared == RequestOf(Favored(rr), ibus, dbus)
    ensures ResponseTo(Favored(rr), r) == sharedResp
    ensures ResponseTo(Other(Favored(rr)), r) == Idle
  {
    if rr then Routing(dbus, Idle, sharedResp)
    else Routing(ibus, sharedResp, Idle)
  }

  /** At most one master is acknowledged in any cycle, and a request on the
      shared bus always comes from a master that is requesting. */
  lemma NoDoubleGrant(rr: bool, ibus: Request, dbus: Request, sharedResp: Response)
    ensures !(Route(rr, ibus, dbus, sharedResp).ibusResp.ack && Route(rr, ibus, dbus, sharedResp).dbusResp.ack)
    ensures Route(rr, ibus, dbus, sharedResp).shared.cyc ==> ibus.cyc || dbus.cyc
  {
    var r := Route(rr, ibus, dbus, sharedResp);
    assert ResponseTo(Other(Favored(rr)), r) == Idle;
  }

  class WishboneArbiter {
    /** The grant bit; reset value 0. */
    var rr: bool

    constructor ()
      ensures !rr
      ensures Favored(rr) == IBus
    {
      rr := false;
    }

    /** The connections this cycle, for the current value of `rr`. */
    function Connect(ibus: Request, dbus: Request, sharedResp: Response): (r: Routing)
      reads this
      ensures r.shared == RequestOf(Favored(rr), ibus, dbus)
      ensures ResponseTo(Favored(rr), r) == sharedResp
      ensures ResponseTo(Other(Favored(rr)), r) == Idle
    {
      Route(rr, ibus, dbus, sharedResp)
    }

    /** One clock edge, given both masters' `cyc` on the cycle before it. */
    method Tick(ibusCyc: bool, dbusCyc: bool)
      modifies this
      ensures rr == NextRr(old(rr), ibusCyc, dbusCyc)
    {
      if rr {
        if !dbusCyc && ibusCyc {
          rr := false;
        }
      } else {
        if !ibusCyc && dbusCyc {
          rr := true;
        }
      }
    }
  }

  /** Both masters' `cyc` on one cycle. */
  datatype Cycs = Cycs(ibusCyc: bool, dbusCyc: bool)

  function Holds(m: Master, c: Cycs): bool
  {
    CycOf(m, c.ibusCyc, c.dbusCyc)
  }

  /** The value of `rr` on every cycle of a run starting from `rr0`. */
  function Grants(rr0: bool, cycs: seq<Cycs>): (g: seq<bool>)
    ensures |g| == |cycs| + 1 && g[0] == rr0
    ensures forall k :: 0 <= k < |cycs| ==> g[k + 1] == NextRr(g[k], cycs[k].ibusCyc, cycs[k].dbusCyc)
    decreases |cycs|
  {
    if cycs == [] then [rr0]
    else [rr0] + Grants(NextRr(rr0, cycs[0].ibusCyc, cycs[0].dbusCyc), cycs[1..])
  }

  /** The grant changes only at a transaction boundary: the favoured master
      had dropped `cyc` and the other one was requesting. */
  lemma GrantChangesOnlyAtBoundary(rr0: bool, cycs: seq<Cycs>, k: nat)
    requires k < |cycs|
    requires Grants(rr0, cycs)[k + 1] != Grants(rr0, cycs)[k]
    ensures !Holds(Favored(Grants(rr0, cycs)[k]), cycs[k])
    ensures Holds(Other(Favored(Grants(rr0, cycs)[k])), cycs[k])
  {
  }

  /** A granted master that keeps `cyc` high keeps the shared bus: it is
      never pre-empted in the middle of a transaction. */
  lemma {:induction false} HeldGrantNeverPreempted(rr0: bool, cycs: seq<Cycs>, t: nat, j: nat)
    requires t <= j <= |cycs|
    requires forall k :: t <= k < j ==> Holds(Favored(Grants(rr0, cycs)[t]), cycs[k])
    ensures Grants(rr0, cycs)[j] == Grants(rr0, cycs)[t]
    decreases j - t
  {
    if t < j {
      var g := Grants(rr0, cycs);
      HeldGrantNeverPreempted(rr0, cycs, t, j - 1);
      assert g[j] == NextRr(g[j - 1], cycs[j - 1].ibusCyc, cycs[j - 1].dbusCyc);
    }
  }

  /** No starvation: if the master that is not favoured at cycle `t` keeps
      requesting up to cycle `m`, it owns the shared bus from the cycle after
      the favoured master first drops `cyc` (at `j`) through cycle `m`. */
  lemma {:induction false} NoStarvation(rr0: bool, cycs: seq<Cycs>, t: nat, j: nat, m: nat)
    requires t <= j < m <= |cycs|
    requires forall k :: t <= k < m ==> Holds(Other(Favored(Grants(rr0, cycs)[t])), cycs[k])
    requires !Holds(Favored(Grants(rr0, cycs)[t]), cycs[j])
    ensures forall k :: j < k <= m ==> Favored(Grants(rr0, cycs)[k]) == Other(Favored(Grants(rr0, cycs)[t]))
  {
    var g := Grants(rr0, cycs);
    var waiting := Other(Favored(g[t]));
    assert Favored(g[j + 1]) == waiting by {
      assert g[j + 1] == NextRr(g[j], cycs[j].ibusCyc, cycs[j].dbusCyc);
    }
    forall k | j < k <= m
      ensures Favored(g[k]) == waiting
    {
      HeldGrantNeverPreempted(rr0, cycs, j + 1, k);
    }
  }

  /** After reset the instruction bus owns the shared bus. */
  lemma ResetFavorsInstructionBus(cycs: seq<Cycs>, ibus: Request, dbus: Request, sharedResp: Response)
    ensures Route(Grants(false, cycs)[0], ibus, dbus, sharedResp).shared == ibus
    ensures Route(Grants(false, cycs)[0], ibus, dbus, sharedResp).ibusResp == sharedResp
  {
  }
}

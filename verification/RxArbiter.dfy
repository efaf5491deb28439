/** The round-robin arbiter over the 32 receive ports (rtl/top/mac_rx_arb.sv). */
module RxArbiter {
  import opened Words

  const NUM_PORTS := 32

  type Port = p: int | 0 <= p < 32
  type Valids = v: seq<bool> | |v| == 32 witness seq(32, _ => false)

  function Scan(rr: Port, i: nat): Port { (rr + i) % NUM_PORTS }

  /** How many ports are scanned before `p`. */
  function Dist(rr: Port, p: Port): Port { (p - rr) % NUM_PORTS }

  /** The first valid port at or after the pointer, wrapping around. */
  ghost predicate IsGrant(rr: Port, valid: Valids, g: Option<Port>) {
    match g
    case None => forall p: Port :: !valid[p]
    case Some(p) => valid[p] && forall q: Port :: Dist(rr, q) < Dist(rr, p) ==> !valid[q]
  }

  lemma ScanIsDist(rr: Port, i: Port, p: Port)
    ensures Dist(rr, p) == i <==> p == Scan(rr, i)
  {
    assert (p - rr) % NUM_PORTS == if p >= rr then p - rr else p - rr + NUM_PORTS;
    assert (rr + i) % NUM_PORTS == if rr + i < NUM_PORTS then rr + i else rr + i - NUM_PORTS;
  }

  class MacRxArb {
    var rrPtr: Port

    constructor ()
      ensures rrPtr == 0
    {
      rrPtr := 0;
    }

    /** The combinational scan. */
    method Grant(valid: Valids) returns (g: Option<Port>)
      ensures IsGrant(rrPtr, valid, g)
    {
      g := None;
      for i := 0 to NUM_PORTS
        invariant g.None? ==> forall p: Port :: Dist(rrPtr, p) < i ==> !valid[p]
        invariant g.Some? ==> IsGrant(rrPtr, valid, g)
      {
        var idx := (rrPtr + i) % NUM_PORTS;
        forall p: Port { ScanIsDist(rrPtr, i, p); }
        if g.None? && valid[idx] { g := Some(idx); }
      }
    }

    /** One clock edge: the pointer moves past the granted port when its cell is accepted. */
    method ClockEdge(valid: Valids, ready: bool) returns (accepted: Option<Port>)
      modifies this
      ensures accepted.Some? ==> IsGrant(old(rrPtr), valid, accepted)
      ensures accepted.None? <==> !ready || forall p: Port :: !valid[p]
      ensures rrPtr == if accepted.Some? then (accepted.value + 1) % NUM_PORTS else old(rrPtr)
    {
      var g := Grant(valid);
      accepted := if ready then g else None;
      if accepted.Some? { rrPtr := (accepted.value + 1) % NUM_PORTS; }
    }
  }

  // ----- runs

  datatype Cycle = Cycle(valid: Valids, ready: bool, accepted: Option<Port>)

  ghost predicate Step(rr: Port, c: Cycle, rr': Port) {
    && (c.accepted.Some? ==> IsGrant(rr, c.valid, c.accepted))
    && (c.accepted.None? <==> !c.ready || forall p: Port :: !c.valid[p])
    && rr' == if c.accepted.Some? then (c.accepted.value + 1) % NUM_PORTS else rr
  }

  /** The pointer before each cycle is `rrs[i]`. */
  ghost predicate IsRun(rrs: seq<Port>, cycles: seq<Cycle>) {
    |rrs| == |cycles| + 1 && forall i :: 0 <= i < |cycles| ==> Step(rrs[i], cycles[i], rrs[i + 1])
  }

  function Acceptances(cycles: seq<Cycle>): nat {
    if cycles == [] then 0
    else Acceptances(cycles[1..]) + if cycles[0].accepted.Some? then 1 else 0
  }

  /** The two outcomes for a waiting port: its own cell is accepted, or the pointer has come closer to it. */
  lemma WaitingPortGetsCloser(rr: Port, c: Cycle, rr': Port, p: Port)
    requires Step(rr, c, rr') && c.valid[p] && c.accepted.Some?
    ensures c.accepted.value == p || Dist(rr', p) < Dist(rr, p)
  {
    var g := c.accepted.value;
    assert Dist(rr, g) <= Dist(rr, p);
    ScanIsDist(rr, Dist(rr, p), p);
    ScanIsDist(rr, Dist(rr, p), g);
    if g != p { StepsPast(rr, g, p); }
  }

  lemma StepsPast(rr: Port, g: Port, p: Port)
    requires Dist(rr, g) < Dist(rr, p)
    ensures Dist((g + 1) % NUM_PORTS, p) == Dist(rr, p) - Dist(rr, g) - 1
  {
  }

  /** No starvation: while a port keeps its request up without being served, the cells accepted from others never
      outnumber the ports between the pointer and it. */
  lemma {:induction false} NoStarvation(rrs: seq<Port>, cycles: seq<Cycle>, p: Port)
    requires IsRun(rrs, cycles)
    requires forall i :: 0 <= i < |cycles| ==> cycles[i].valid[p] && cycles[i].accepted != Some(p)
    ensures Acceptances(cycles) <= Dist(rrs[0], p) <= 31
  {
    if cycles != [] {
      NoStarvation(rrs[1..], cycles[1..], p);
      assert Step(rrs[0], cycles[0], rrs[1]);
      if cycles[0].accepted.Some? { WaitingPortGetsCloser(rrs[0], cycles[0], rrs[1], p); }
    }
  }

  /** So a port that keeps its request up is served within 32 accepted cells. */
  lemma ServedWithin32(rrs: seq<Port>, cycles: seq<Cycle>, p: Port)
    requires IsRun(rrs, cycles) && Acceptances(cycles) >= 32
    requires forall i :: 0 <= i < |cycles| ==> cycles[i].valid[p]
    ensures exists i :: 0 <= i < |cycles| && cycles[i].accepted == Some(p)
  {
    if forall i :: 0 <= i < |cycles| ==> cycles[i].accepted != Some(p) {
      NoStarvation(rrs, cycles, p);
    }
  }
}

/** Two firmware instances resolving each other's addresses with ARP (RFC 826, Packet Generation and Packet Reception).
    */
module ArpProtocol {
  import opened Words
  import opened Punt
  import opened ArpTable

  /** The wire and the receiving data plane: the bytes are untouched, the receiver stamps its own port and VLAN. */
  function Delivered(pkt: PuntPkt, port: uint8, vlan: uint16): PuntPkt {
    pkt.(ingPort := port, vlanId := vlan)
  }

  /** The table holds the address already or has a free slot for it. */
  ghost predicate Room(t: Table, ip: uint32) {
    exists s: Slot :: Hit(t[s], ip, true)
  }

  lemma RoomIffFound(t: Table, ip: uint32)
    ensures Room(t, ip) <==> Find(t, ip, false).Some? || Find(t, ip, true).Some?
    ensures Room(t, ip) <==> Find(t, ip, true).Some?
  {
    FindIsFirst(t, ip, true);
    FindIsFirst(t, ip, false);
    if Find(t, ip, false).Some? { assert Hit(t[Find(t, ip, false).value], ip, true); }
  }

  /** After an addition the address resolves to what was added exactly when there was room; otherwise nothing changed.
      */
  lemma AddThenLookup(t: Table, ip: uint32, mac: Mac, port: uint8, vlan: uint16)
    ensures var u := Add(t, ip, mac, port, vlan).1;
      if Room(t, ip) then Lookup(u, ip) == Some((mac, port)) else u == t && Lookup(u, ip) == None
    ensures var u := Add(t, ip, mac, port, vlan).1;
      Room(t, ip) ==>
        var k := Find(u, ip, false);
        && k.Some? && u[k.value] == Entry(ip, mac, port, vlan, 0, 3, Reachable)
        && forall s: Slot :: s != k.value ==> u[s] == t[s]
  {
    var u := Add(t, ip, mac, port, vlan).1;
    RoomIffFound(t, ip);
    FindIsFirst(t, ip, false);
    FindIsFirst(t, ip, true);
    FindIsFirst(u, ip, false);
    if Room(t, ip) {
      var k := if Find(t, ip, false).Some? then Find(t, ip, false).value else Find(t, ip, true).value;
      assert Hit(u[k], ip, false);
      FirstOwnerIs(t, u, ip, k);
    }
  }

  /** Writing an entry for `ip` at the first slot that holds it, or when no slot does, makes that slot the first. */
  lemma FirstOwnerIs(t: Table, u: Table, ip: uint32, k: Slot)
    requires u == t[k := u[k]] && Owns(u[k], ip)
    requires forall s: Slot :: Dist(ip, s) < Dist(ip, k) ==> !Owns(t[s], ip)
    ensures Find(u, ip, false) == Some(k)
  {
    FindIsFirst(u, ip, false);
    assert Hit(u[k], ip, false);
    var r := Find(u, ip, false);
    assert Owns(u[r.value], ip);
    if Dist(ip, r.value) == Dist(ip, k) {
      ProbedIsAtDist(ip, Dist(ip, k), k);
      ProbedIsAtDist(ip, Dist(ip, k), r.value);
    }
  }

  /** The receiver reads back the fields the builder laid down. */
  lemma FrameFields(dst: Mac, mac: Mac, oper: uint8, ip: uint32, tha: Mac, tpa: uint32)
    ensures var d := Padded(Frame(dst, mac, oper, ip, tha, tpa));
      && ReadBe16(d, 12) == ETH_TYPE_ARP && ReadBe16(d, 20) == oper
      && d[22..28] == mac && ReadBe32(d, 28) == ip && ReadBe32(d, 38) == tpa
  {
    var d := Padded(Frame(dst, mac, oper, ip, tha, tpa));
    assert d[12..14] == [8, 6] && d[20..22] == [0, oper];
    assert d[12..14][0] == d[12] && d[12..14][1] == d[13] && d[20..22][0] == d[20] && d[20..22][1] == d[21];
    assert d[28..32] == Be32(ip);
    Be32RoundTrip(d, 28, ip);
    assert d[38..42] == Be32(tpa);
    Be32RoundTrip(d, 38, tpa);
  }

  /** A received ARP frame for this node: the sender is learned and, for a request, the reply is queued. */
  lemma ProcessFrame(n: Node, pkt: PuntPkt, dst: Mac, mac: Mac, oper: uint8, ip: uint32, tha: Mac, tpa: uint32)
    requires pkt.pktLen == 42 && pkt.data == Padded(Frame(dst, mac, oper, ip, tha, tpa))
    requires oper == OP_REPLY || (oper == OP_REQUEST && ForUs(n, pkt.ingPort, tpa))
    ensures var m := Process(n, pkt);
      && m.t == Add(n.t, ip, mac, pkt.ingPort, pkt.vlanId).1 && m.intf == n.intf
      && (oper == OP_REQUEST && |n.out| < PUNT_RING_SLOTS ==>
            var me := n.intf[pkt.ingPort];
            m.out == n.out + [ArpPkt(pkt.ingPort, pkt.vlanId, Frame(mac, me.mac, OP_REPLY, me.ip, mac, ip))])
  {
    FrameFields(dst, mac, oper, ip, tha, tpa);
  }

  /** Probing for an address makes room for it wherever there was any. */
  lemma MarkKeepsRoom(t: Table, ip: uint32, port: uint8, vlan: uint16)
    ensures Room(Mark(t, ip, port, vlan), ip) <==> Room(t, ip)
  {
    RoomIffFound(t, ip);
    FindIsFirst(t, ip, true);
    var u := Mark(t, ip, port, vlan);
    if Room(t, ip) {
      assert Hit(u[Find(t, ip, true).value], ip, true);
    }
  }

  datatype Exchange = Exchange(a: Node, b: Node)

  /** `a` probes for the address of `b`; the request crosses to `b`; the reply crosses back to `a`. */
  function Resolve(a: Node, pa: uint8, vlan: uint16, b: Node, pb: uint8, vlanB: uint16, vlanA: uint16): Exchange
    requires pa < 32 && a.intf[pa].valid && |a.out| < PUNT_RING_SLOTS
    requires pb < 32 && b.intf[pb].valid && |b.out| < PUNT_RING_SLOTS
  {
    var a1 := Probe(a, b.intf[pb].ip, pa, vlan).1;
    var b1 := Process(b, Delivered(a1.out[|a.out|], pb, vlanB));
    if |b1.out| == |b.out| then Exchange(a1, b1)
    else Exchange(Process(a1, Delivered(b1.out[|b.out|], pa, vlanA)), b1)
  }

  /** Each side ends up resolving the other to its MAC and the local port, exactly when its table had room. */
  lemma ResolveWorks(a: Node, pa: uint8, vlan: uint16, b: Node, pb: uint8, vlanB: uint16, vlanA: uint16)
    requires pa < 32 && a.intf[pa].valid && |a.out| < PUNT_RING_SLOTS
    requires pb < 32 && b.intf[pb].valid && |b.out| < PUNT_RING_SLOTS
    ensures var ia, ib := a.intf[pa], b.intf[pb];
      var r := Resolve(a, pa, vlan, b, pb, vlanB, vlanA);
      && Lookup(r.a.t, ib.ip) == (if Room(a.t, ib.ip) then Some((ib.mac, pa)) else None)
      && Lookup(r.b.t, ia.ip) == (if Room(b.t, ia.ip) then Some((ia.mac, pb)) else None)
  {
    var ia, ib := a.intf[pa], b.intf[pb];
    var a1 := Probe(a, ib.ip, pa, vlan).1;
    var request := Delivered(a1.out[|a.out|], pb, vlanB);
    ProcessFrame(b, request, BCAST_MAC, ia.mac, OP_REQUEST, ia.ip, BCAST_MAC, ib.ip);
    var b1 := Process(b, request);
    var reply := Delivered(b1.out[|b.out|], pa, vlanA);
    ProcessFrame(a1, reply, ia.mac, ib.mac, OP_REPLY, ib.ip, ia.mac, ia.ip);
    AddThenLookup(b.t, ia.ip, ia.mac, pb, vlanB);
    AddThenLookup(a1.t, ib.ip, ib.mac, pa, vlanA);
    MarkKeepsRoom(a.t, ib.ip, pa, vlan);
  }
}

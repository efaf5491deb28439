/** What the ARP module transmits, byte by byte (RFC 826, Packet format): when it answers, when it asks, and that it
    sends nothing else. */
module ArpSends {
  import opened Words
  import opened Punt
  import opened ArpTable
  import opened ArpAging
  import opened ArpRuns

  /** Four bytes as a number, the most significant first. */
  function NumberAt(d: Buffer, off: nat): int
    requires off + 4 <= 256
  {
    ((d[off] as int * 256 + d[off + 1] as int) * 256 + d[off + 2] as int) * 256 + d[off + 3] as int
  }

  lemma NumberIsRead(d: Buffer, off: nat)
    requires off + 4 <= 256
    ensures NumberAt(d, off) == ReadBe32(d, off)
  {
  }

  /** An Ethernet frame of 42 bytes with an ARP packet for IPv4 over Ethernet, and zeros behind it, to leave by a port.
      */
  predicate IsArp(pkt: PuntPkt, port: uint8, vlan: uint16, dst: Mac, oper: uint8,
                  sha: Mac, spa: uint32, tha: Mac, tpa: uint32) {
    var d := pkt.data;
    && pkt.egPort == port && pkt.vlanId == vlan && pkt.pktLen == 42 && pkt.reason == 0 && pkt.ingPort == 0
    && d[0..6] == dst && d[6..12] == sha && d[12] == 0x08 && d[13] == 0x06
    && d[14] == 0 && d[15] == 1 && d[16] == 0x08 && d[17] == 0 && d[18] == 6 && d[19] == 4
    && d[20] == 0 && d[21] == oper
    && d[22..28] == sha && NumberAt(d, 28) == spa && d[32..38] == tha && NumberAt(d, 38) == tpa
    && forall i :: 42 <= i < 256 ==> d[i] == 0
  }

  /** A broadcast question for the hardware address of `target`. */
  predicate IsRequest(pkt: PuntPkt, me: Intf, target: uint32, port: uint8, vlan: uint16) {
    IsArp(pkt, port, vlan, [0xFF, 0xFF, 0xFF, 0xFF, 0xFF, 0xFF], 1, me.mac, me.ip,
          [0xFF, 0xFF, 0xFF, 0xFF, 0xFF, 0xFF], target)
  }

  /** The answer to one who asked, sent back to him alone. */
  predicate IsReply(pkt: PuntPkt, me: Intf, asker: Mac, askerIp: uint32, port: uint8, vlan: uint16) {
    IsArp(pkt, port, vlan, asker, 2, me.mac, me.ip, asker, askerIp)
  }

  lemma BuiltIsArp(port: uint8, vlan: uint16, dst: Mac, mac: Mac, oper: uint8, ip: uint32, tha: Mac, tpa: uint32)
    ensures IsArp(ArpPkt(port, vlan, Frame(dst, mac, oper, ip, tha, tpa)), port, vlan, dst, oper, mac, ip, tha, tpa)
  {
    var d := Padded(Frame(dst, mac, oper, ip, tha, tpa));
    assert d[12..22] == [8, 6, 0, 1, 8, 0, 6, 4, 0, oper];
    assert forall i :: 12 <= i < 22 ==> d[i] == d[12..22][i - 12];
    assert d[28..32] == Be32(ip) && d[38..42] == Be32(tpa);
    Be32RoundTrip(d, 28, ip);
    Be32RoundTrip(d, 38, tpa);
    NumberIsRead(d, 28);
    NumberIsRead(d, 38);
    hide Be32, NumberAt, ReadBe32;
  }

  // ----- answers

  predicate IsArpFrame(pkt: PuntPkt) { pkt.pktLen >= 42 && pkt.data[12] == 0x08 && pkt.data[13] == 0x06 }

  predicate Says(pkt: PuntPkt, oper: uint8) { IsArpFrame(pkt) && pkt.data[20] == 0 && pkt.data[21] == oper }

  /** A request for the address of the port it came in on. */
  predicate AsksForUs(n: Node, pkt: PuntPkt) {
    && Says(pkt, 1) && pkt.ingPort < 32
    && n.intf[pkt.ingPort].valid && n.intf[pkt.ingPort].ip == NumberAt(pkt.data, 38)
  }

  lemma SameBytes(d: Buffer, off: nat, hi: uint8, lo: uint8)
    requires off + 2 <= 256
    ensures ReadBe16(d, off) == hi as int * 256 + lo as int <==> d[off] == hi && d[off + 1] == lo
  {
  }

  /** A received packet is answered if and only if it asks for the address of its port and the transmit queue has room:
      by one reply to the asker. It changes no interface, and the table by learning the sender of a request or a reply.
      */
  lemma ProcessSends(n: Node, pkt: PuntPkt)
    ensures var m, q := Process(n, pkt), |n.out|;
      if AsksForUs(n, pkt) && q < 16 then
        && |m.out| == q + 1 && m.out[..q] == n.out
        && IsReply(m.out[q], n.intf[pkt.ingPort], pkt.data[22..28], NumberAt(pkt.data, 28), pkt.ingPort, pkt.vlanId)
      else m.out == n.out
    ensures var m := Process(n, pkt);
      && m.intf == n.intf
      && m.t == if Says(pkt, 1) || Says(pkt, 2)
                then Add(n.t, NumberAt(pkt.data, 28), pkt.data[22..28], pkt.ingPort, pkt.vlanId).1 else n.t
  {
    NumberIsRead(pkt.data, 28);
    NumberIsRead(pkt.data, 38);
    SameBytes(pkt.data, 12, 0x08, 0x06);
    SameBytes(pkt.data, 20, 0, 1);
    SameBytes(pkt.data, 20, 0, 2);
    hide Frame, ReadBe32, ReadBe16, NumberAt, Add, Padded, IsArp;
    if AsksForUs(n, pkt) {
      var me := n.intf[pkt.ingPort];
      var sha: Mac := pkt.data[22..28];
      BuiltIsArp(pkt.ingPort, pkt.vlanId, sha, me.mac, OP_REPLY, me.ip, sha, ReadBe32(pkt.data, 28));
    }
  }

  /** The switching table is told of the sender exactly when the neighbour table took it. */
  lemma ProcessTells(n: Node, pkt: PuntPkt)
    ensures var added := Add(n.t, NumberAt(pkt.data, 28), pkt.data[22..28], pkt.ingPort, pkt.vlanId);
      Told(n, pkt) ==
        if (Says(pkt, 1) || Says(pkt, 2)) && added.0 == HalOk then [(pkt.data[22..28], pkt.ingPort)] else []
  {
    NumberIsRead(pkt.data, 28);
    SameBytes(pkt.data, 12, 0x08, 0x06);
    SameBytes(pkt.data, 20, 0, 1);
    SameBytes(pkt.data, 20, 0, 2);
    hide ReadBe32, ReadBe16, NumberAt, Add;
  }

  // ----- questions

  predicate HasIntf(n: Node, port: uint8) { port < 32 && n.intf[port].valid }

  /** A probe is refused without an interface, and otherwise asks for the target as long as the queue has room. */
  lemma ProbeSends(n: Node, ip: uint32, port: uint8, vlan: uint16)
    ensures var (code, m) := Probe(n, ip, port, vlan);
      && m.intf == n.intf
      && code == (if !HasIntf(n, port) then HalInval else if |n.out| >= 16 then HalFull else HalOk)
      && m.t == (if HasIntf(n, port) then Mark(n.t, ip, port, vlan) else n.t)
      && if code == HalOk then
           && |m.out| == |n.out| + 1 && m.out[..|n.out|] == n.out
           && IsRequest(m.out[|n.out|], n.intf[port], ip, port, vlan)
         else m.out == n.out
  {
    hide Frame, Mark, Padded, IsArp;
    if HasIntf(n, port) {
      BuiltIsArp(port, vlan, BCAST_MAC, n.intf[port].mac, OP_REQUEST, n.intf[port].ip, BCAST_MAC, ip);
    }
  }

  /** The request of an entry that is due, sent. */
  predicate SentFor(u: Node, n: Node, e: Entry) {
    && |u.out| == |n.out| + 1 && u.out[..|n.out|] == n.out
    && e.port < 32 && IsRequest(u.out[|n.out|], n.intf[e.port], e.ip, e.port, e.vlan)
  }

  /** A visit of the aging pass sends the request of an entry that is due, if its port has an interface and the queue
      has room, and nothing otherwise. */
  lemma VisitSends(n: Node, i: Slot, now: uint32)
    ensures var e, u := n.t[i], AgeSlot(n, i, now);
      && u.intf == n.intf
      && if Fires(e, now) && HasIntf(n, e.port) && |n.out| < 16 then SentFor(u, n, e) else u.out == n.out
  {
    hide Probe, IsRequest, Delete;
    var e := n.t[i];
    if Fires(e, now) { ProbeSends(n.(t := n.t[i := Retried(e, now)]), e.ip, e.port, e.vlan); }
  }

  /** The table after a visit, slot by slot: the visited slot evolves by its own clock, and a probe for it fills the
      free slot that its path meets before the entry itself, and no other. */
  lemma VisitFills(n: Node, i: Slot, now: uint32, j: Slot)
    requires Wf(n.t)
    ensures var e, u := n.t[i], AgeSlot(n, i, now).t;
      u[j] == if j == i then Evolve(e, now)
              else if Fires(e, now) && HasIntf(n, e.port) && Find(n.t, e.ip, true) == Some(j) && n.t[j].state == Free
              then Fresh(e)
              else n.t[j]
  {
    hide Find, Frame, Send;
    var e := n.t[i];
    AgeSlotShape(n, i, now, j);
    assert EntryWf(e) && EntryWf(n.t[j]);
    if Fires(e, now) && j != i {
      var t := n.t[i := Retried(e, now)];
      SameSearch(n.t, t, e.ip, i);
      FindFreeStopsEarly(n.t, e.ip, i);
    }
  }

  /** Where an address's search ends does not depend on the other fields of its entries. */
  lemma SameSearch(t: Table, u: Table, ip: uint32, i: Slot)
    requires u == t[i := u[i]] && Owns(t[i], ip) && Owns(u[i], ip)
    ensures Find(u, ip, true) == Find(t, ip, true)
  {
    SameSearchFrom(t, u, ip, 0);
  }

  lemma {:induction false} SameSearchFrom(t: Table, u: Table, ip: uint32, k: nat)
    requires k <= TABLE_SIZE && forall s: Slot :: Hit(u[s], ip, true) <==> Hit(t[s], ip, true)
    ensures FindFrom(u, ip, true, k) == FindFrom(t, ip, true, k)
    decreases TABLE_SIZE - k
  {
    if k < TABLE_SIZE { SameSearchFrom(t, u, ip, k + 1); }
  }

  // ----- a whole pass

  /** The node as the pass comes to slot `i`. */
  function At(n: Node, i: nat, now: uint32): Node
    requires i <= TABLE_SIZE
  {
    if i == 0 then n else AgeSlot(At(n, i - 1, now), i - 1, now)
  }

  lemma {:induction false} PassIsVisits(n: Node, i: nat, now: uint32)
    requires i <= TABLE_SIZE
    ensures AgeFrom(At(n, i, now), i, now) == Age(n, now)
  {
    if i > 0 { PassIsVisits(n, i - 1, now); }
  }

  /** The slots below `i` that are due as the pass comes to them, with an interface at their port. */
  function Due(n: Node, i: nat, now: uint32): seq<Slot>
    requires i <= TABLE_SIZE
  {
    if i == 0 then []
    else
      var m := At(n, i - 1, now);
      Due(n, i - 1, now) + if Fires(m.t[i - 1], now) && HasIntf(n, m.t[i - 1].port) then [i - 1] else []
  }

  /** The `k`th packet asks for the address of the `k`th slot, as that slot was when the pass came to it. */
  predicate AsksFor(n: Node, due: seq<Slot>, now: uint32, asked: seq<PuntPkt>) {
    |asked| <= |due| && forall k :: 0 <= k < |asked| ==> AsksForSlot(n, due[k], now, asked[k])
  }

  predicate AsksForSlot(n: Node, s: Slot, now: uint32, pkt: PuntPkt) {
    var e := At(n, s, now).t[s];
    e.port < 32 && IsRequest(pkt, n.intf[e.port], e.ip, e.port, e.vlan)
  }

  /** What the queue still takes. */
  function Space(n: Node): nat { if |n.out| < 16 then 16 - |n.out| else 0 }

  lemma {:induction false} PassSendsUpTo(n: Node, i: nat, now: uint32) returns (asked: seq<PuntPkt>)
    requires i <= TABLE_SIZE
    ensures At(n, i, now).intf == n.intf && At(n, i, now).out == n.out + asked
    ensures AsksFor(n, Due(n, i, now), now, asked)
    ensures |asked| == if |Due(n, i, now)| < Space(n) then |Due(n, i, now)| else Space(n)
  {
    hide AgeSlot, IsRequest, Fires;
    if i == 0 {
      asked := [];
    } else {
      asked := PassSendsUpTo(n, i - 1, now);
      var m := At(n, i - 1, now);
      var e := m.t[i - 1];
      VisitSends(m, i - 1, now);
      if Fires(e, now) && HasIntf(n, e.port) && |m.out| < 16 {
        asked := asked + [At(n, i, now).out[|m.out|]];
      }
    }
  }

  /** A pass over the table sends the requests of exactly the slots that are due as it comes to them and have an
      interface at their port, in the order of the slots, until the queue is full; it changes no interface. */
  lemma PassSends(n: Node, now: uint32) returns (asked: seq<PuntPkt>)
    ensures Age(n, now).intf == n.intf && Age(n, now).out == n.out + asked
    ensures AsksFor(n, Due(n, TABLE_SIZE, now), now, asked)
    ensures |asked| == if |Due(n, TABLE_SIZE, now)| < Space(n) then |Due(n, TABLE_SIZE, now)| else Space(n)
  {
    hide AgeSlot, At, Due, AsksFor;
    PassIsVisits(n, TABLE_SIZE, now);
    asked := PassSendsUpTo(n, TABLE_SIZE, now);
  }

  // ----- the interfaces

  /** Once a port has been given an interface, requests for its address on it are answered with its MAC. */
  lemma InterfaceAnswers(n: Node, port: uint8, ip: uint32, mac: Mac, pkt: PuntPkt)
    requires port < 32 && pkt.ingPort == port && Says(pkt, 1) && NumberAt(pkt.data, 38) == ip && |n.out| < 16
    ensures var m := Process(SetIntf(n, port, ip, mac), pkt);
      && |m.out| == |n.out| + 1
      && IsReply(m.out[|n.out|], Intf(ip, mac, true), pkt.data[22..28], NumberAt(pkt.data, 28), port, pkt.vlanId)
  {
    ProcessSends(SetIntf(n, port, ip, mac), pkt);
    hide Process, IsReply;
  }

  /** No other port is touched, and nothing else; a port past 31 is ignored. */
  lemma InterfaceIsLocal(n: Node, port: uint8, ip: uint32, mac: Mac, other: uint8)
    requires other < 32 && other != port
    ensures var m := SetIntf(n, port, ip, mac); m.intf[other] == n.intf[other] && m.t == n.t && m.out == n.out
  {
  }
}

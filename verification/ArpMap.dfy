/** The slot array of the ARP table refines a finite map from addresses to entries. */
module ArpMap {
  import opened Words
  import opened Punt
  import opened ArpHash
  import opened ArpTable
  import opened ArpRuns

  /** At most one slot per address. */
  ghost predicate Unique(t: Table) {
    forall s: Slot, r: Slot :: s != r && t[s].state != Free && t[r].state != Free ==> t[s].ip != t[r].ip
  }

  ghost function IpsUpTo(t: Table, n: nat): set<uint32>
    requires n <= TABLE_SIZE
  {
    set s: Slot | s < n && t[s].state != Free :: t[s].ip
  }

  ghost function Ips(t: Table): set<uint32> { IpsUpTo(t, TABLE_SIZE) }

  lemma FindOwner(t: Table, ip: uint32)
    ensures Find(t, ip, false).Some? <==> ip in Ips(t)
    ensures Find(t, ip, false).Some? ==> Owns(t[Find(t, ip, false).value], ip)
  {
    FindIsFirst(t, ip, false);
    if ip in Ips(t) {
      var s: Slot :| t[s].state != Free && t[s].ip == ip;
      assert Hit(t[s], ip, false);
    }
  }

  /** The map a table stands for: each address it holds, with the entry of its slot. */
  ghost function View(t: Table): (m: map<uint32, Entry>)
    ensures m.Keys == Ips(t)
  {
    map ip | ip in Ips(t) :: var s: Slot :| t[s].state != Free && t[s].ip == ip; t[s]
  }

  // ----- the specification: the same operations on a bounded map

  function MapAdd(m: map<uint32, Entry>, ip: uint32, mac: Mac, port: uint8, vlan: uint16)
    : (HalCode, map<uint32, Entry>)
  {
    if ip in m || |m| < TABLE_SIZE then (HalOk, m[ip := Learned(ip, mac, port, vlan)]) else (HalFull, m)
  }

  function MapDelete(m: map<uint32, Entry>, ip: uint32): (HalCode, map<uint32, Entry>) {
    if ip in m then (HalOk, m - {ip}) else (HalInval, m)
  }

  function MapLookup(m: map<uint32, Entry>, ip: uint32): Option<(Mac, uint8)> {
    if ip in m && m[ip].state == Reachable then Some((m[ip].mac, m[ip].port)) else None
  }

  /** What a received frame teaches: the sender's address, for ARP requests and replies only. */
  function MapProcess(m: map<uint32, Entry>, pkt: PuntPkt): map<uint32, Entry> {
    var oper := ReadBe16(pkt.data, 20);
    if pkt.pktLen >= 42 && ReadBe16(pkt.data, 12) == ETH_TYPE_ARP && (oper == OP_REQUEST || oper == OP_REPLY)
    then MapAdd(m, ReadBe32(pkt.data, 28), pkt.data[22..28], pkt.ingPort, pkt.vlanId).1
    else m
  }

  // ----- capacity

  function Used(t: Table, n: nat): (r: nat)
    requires n <= TABLE_SIZE
    ensures r <= n
  {
    if n == 0 then 0 else Used(t, n - 1) + if t[n - 1].state == Free then 0 else 1
  }

  lemma {:induction false} UsedCountsIps(t: Table, n: nat)
    requires Unique(t) && n <= TABLE_SIZE
    ensures |IpsUpTo(t, n)| == Used(t, n)
  {
    if n > 0 {
      UsedCountsIps(t, n - 1);
      IpsStep(t, n);
      hide IpsUpTo, Unique;
    }
  }

  lemma IpsStep(t: Table, n: nat)
    requires Unique(t) && 0 < n <= TABLE_SIZE
    ensures var e := t[n - 1];
      && (e.state == Free ==> IpsUpTo(t, n) == IpsUpTo(t, n - 1))
      && (e.state != Free ==> IpsUpTo(t, n) == IpsUpTo(t, n - 1) + {e.ip} && e.ip !in IpsUpTo(t, n - 1))
  {
  }

  lemma {:induction false} FullIffNoneFree(t: Table, n: nat)
    requires n <= TABLE_SIZE
    ensures Used(t, n) == n <==> forall s: Slot :: s < n ==> t[s].state != Free
  {
    if n > 0 { FullIffNoneFree(t, n - 1); }
  }

  /** A free slot is found exactly when fewer than 256 addresses are present. */
  lemma RoomIffBelowCapacity(t: Table, ip: uint32)
    requires Unique(t) && ip !in Ips(t)
    ensures Find(t, ip, true).Some? <==> |View(t)| < TABLE_SIZE
    ensures Find(t, ip, true).Some? ==> t[Find(t, ip, true).value].state == Free
  {
    FindIsFirst(t, ip, true);
    FindOwner(t, ip);
    FindIsFirst(t, ip, false);
    UsedCountsIps(t, TABLE_SIZE);
    FullIffNoneFree(t, TABLE_SIZE);
    assert View(t).Keys == Ips(t);
    if Find(t, ip, true).None? { assert forall s: Slot :: !Hit(t[s], ip, true); }
  }

  // ----- each operation refines its map operation

  lemma ViewAt(t: Table, s: Slot)
    requires Unique(t) && t[s].state != Free
    ensures t[s].ip in View(t) && View(t)[t[s].ip] == t[s]
  {
  }

  lemma WriteKeepsUnique(t: Table, k: Slot, e: Entry)
    requires Unique(t) && e.state != Free
    requires Owns(t[k], e.ip) || (t[k].state == Free && e.ip !in Ips(t))
    ensures Unique(t[k := e])
  {
    assert forall s: Slot :: s != k && t[s].state != Free ==> t[s].ip in Ips(t) && t[s].ip != e.ip;
  }

  lemma WriteIps(t: Table, k: Slot, e: Entry)
    requires e.state != Free
    requires Owns(t[k], e.ip) || t[k].state == Free
    ensures Ips(t[k := e]) == Ips(t) + {e.ip}
  {
    var u: Table := t[k := e];
    assert u[k].ip in Ips(u);
    forall ip | ip in Ips(t) && ip != e.ip ensures ip in Ips(u) {
      var s: Slot :| t[s].state != Free && t[s].ip == ip;
      assert u[s].ip == ip;
    }
  }

  /** Writing an entry over the slot of its address, or over a free one when it has none, updates the map there. */
  lemma WriteRefines(t: Table, k: Slot, e: Entry)
    requires Unique(t) && e.state != Free
    requires Owns(t[k], e.ip) || (t[k].state == Free && e.ip !in Ips(t))
    ensures Unique(t[k := e]) && View(t[k := e]) == View(t)[e.ip := e]
  {
    hide Unique, View;
    var u: Table := t[k := e];
    WriteKeepsUnique(t, k, e);
    WriteIps(t, k, e);
    ViewAt(u, k);
    forall ip | ip in Ips(u) ensures View(u)[ip] == View(t)[e.ip := e][ip] {
      var s: Slot :| u[s].state != Free && u[s].ip == ip;
      ViewAt(u, s);
      if s != k { ViewAt(t, s); }
    }
  }

  lemma EraseRefines(t: Table, k: Slot)
    requires Unique(t) && t[k].state != Free
    ensures Unique(t[k := ZERO]) && View(t[k := ZERO]) == View(t) - {t[k].ip}
  {
    var u: Table := t[k := ZERO];
    assert Unique(u);
    forall ip | ip in Ips(u) ensures ip in View(t) && ip != t[k].ip && View(u)[ip] == View(t)[ip] {
      var s: Slot :| u[s].state != Free && u[s].ip == ip;
      ViewAt(u, s);
      ViewAt(t, s);
    }
    forall ip | ip in Ips(t) && ip != t[k].ip ensures ip in Ips(u) {
      var s: Slot :| t[s].state != Free && t[s].ip == ip;
      assert Owns(u[s], ip);
    }
  }

  lemma AddRefines(t: Table, ip: uint32, mac: Mac, port: uint8, vlan: uint16)
    requires Unique(t)
    ensures var (code, u) := Add(t, ip, mac, port, vlan);
      Unique(u) && (code, View(u)) == MapAdd(View(t), ip, mac, port, vlan)
  {
    FindOwner(t, ip);
    var k := Find(t, ip, false);
    if k.Some? {
      WriteRefines(t, k.value, Learned(ip, mac, port, vlan));
    } else {
      RoomIffBelowCapacity(t, ip);
      k := Find(t, ip, true);
      if k.Some? { WriteRefines(t, k.value, Learned(ip, mac, port, vlan)); }
    }
  }

  lemma DeleteRefines(t: Table, ip: uint32)
    requires Unique(t)
    ensures var (code, u) := Delete(t, ip); Unique(u) && (code, View(u)) == MapDelete(View(t), ip)
  {
    FindOwner(t, ip);
    if ip in Ips(t) { EraseRefines(t, Find(t, ip, false).value); }
  }

  lemma LookupRefines(t: Table, ip: uint32)
    requires Unique(t)
    ensures Lookup(t, ip) == MapLookup(View(t), ip)
  {
    FindOwner(t, ip);
  }

  // ----- every run

  /** The calls whose effect on the map is known whatever the layout: all but probes and aging. */
  predicate MapOp(op: Op) { !op.OpProbe? && !op.OpAge? }

  function MapStep(m: map<uint32, Entry>, op: Op): map<uint32, Entry> {
    match op
    case OpAdd(ip, mac, port, vlan) => MapAdd(m, ip, mac, port, vlan).1
    case OpDelete(ip) => MapDelete(m, ip).1
    case OpProcess(pkt) => MapProcess(m, pkt)
    case _ => m
  }

  function MapRun(m: map<uint32, Entry>, ops: seq<Op>): map<uint32, Entry> {
    if ops == [] then m else MapStep(MapRun(m, ops[..|ops| - 1]), ops[|ops| - 1])
  }

  lemma StepRefines(n: Node, op: Op)
    requires Unique(n.t) && MapOp(op)
    ensures Unique(Step(n, op).t) && View(Step(n, op).t) == MapStep(View(n.t), op)
  {
    match op
    case OpAdd(ip, mac, port, vlan) => AddRefines(n.t, ip, mac, port, vlan);
    case OpDelete(ip) => DeleteRefines(n.t, ip);
    case OpProcess(pkt) => ProcessRefines(n, pkt);
    case _ =>
  }

  lemma ProcessRefines(n: Node, pkt: PuntPkt)
    requires Unique(n.t)
    ensures Unique(Process(n, pkt).t) && View(Process(n, pkt).t) == MapProcess(View(n.t), pkt)
  {
    AddRefines(n.t, ReadBe32(pkt.data, 28), pkt.data[22..28], pkt.ingPort, pkt.vlanId);
  }

  /** Every run of additions, deletions, received packets and interface changes keeps one slot per address and refines
      the map. */
  lemma {:induction false} RunRefines(n: Node, ops: seq<Op>)
    requires Unique(n.t) && forall i :: 0 <= i < |ops| ==> MapOp(ops[i])
    ensures Unique(Run(n, ops).t) && View(Run(n, ops).t) == MapRun(View(n.t), ops)
  {
    if ops != [] {
      RunRefines(n, ops[..|ops| - 1]);
      StepRefines(Run(n, ops[..|ops| - 1]), ops[|ops| - 1]);
    }
  }

  lemma MarkHits(t: Table, ip: uint32)
    ensures var k := Find(t, ip, true);
      && (ip in Ips(t) ==> k.Some?)
      && (k.Some? ==> Owns(t[k.value], ip) || t[k.value].state == Free)
      && (k.Some? && ip !in Ips(t) ==> t[k.value].state == Free)
  {
    FindIsFirst(t, ip, true);
    if ip in Ips(t) {
      var own: Slot :| t[own].state != Free && t[own].ip == ip;
      assert Hit(t[own], ip, true);
    }
  }

  /** A probe keeps one slot per address exactly when it does not meet a hole before the target's own slot. */
  lemma MarkKeepsUniqueIff(t: Table, ip: uint32, port: uint8, vlan: uint16)
    requires Unique(t)
    ensures Unique(Mark(t, ip, port, vlan)) <==> !MeetsHoleFirst(t, ip)
  {
    MarkHits(t, ip);
    var k := Find(t, ip, true);
    if k.Some? && t[k.value].state == Free {
      var marked := t[k.value].(ip := ip, port := port, vlan := vlan, retry := PROBE_RETRY_MAX, state := Incomplete);
      MarkAtKeepsUniqueIff(t, k.value, marked);
    }
  }

  /** The address is present, but the probe path reaches a free slot before it. */
  ghost predicate MeetsHoleFirst(t: Table, ip: uint32) {
    var k := Find(t, ip, true);
    ip in Ips(t) && k.Some? && t[k.value].state == Free
  }

  lemma MarkAtKeepsUniqueIff(t: Table, k: Slot, e: Entry)
    requires Unique(t) && t[k].state == Free && e.state != Free
    ensures Unique(t[k := e]) <==> e.ip !in Ips(t)
  {
    if e.ip in Ips(t) { SecondCopy(t, k, e); } else { WriteRefines(t, k, e); }
  }

  lemma SecondCopy(t: Table, k: Slot, e: Entry)
    requires t[k].state == Free && e.state != Free && e.ip in Ips(t)
    ensures !Unique(t[k := e])
  {
    var u: Table := t[k := e];
    var own: Slot :| t[own].state != Free && t[own].ip == e.ip;
    assert u[k].ip == u[own].ip && k != own;
  }

  /** Writing another address's entry into a free slot moves nobody else's. */
  lemma MarkKeepsOthers(t: Table, ip: uint32, port: uint8, vlan: uint16, other: uint32)
    requires other != ip
    ensures Lookup(Mark(t, ip, port, vlan), other) == Lookup(t, other)
  {
    var k, u := Find(t, ip, true), Mark(t, ip, port, vlan);
    FindIsFirst(t, ip, true);
    FindIsFirst(t, other, false);
    FindIsFirst(u, other, false);
    var r := Find(t, other, false);
    if k.Some? && t[k.value].state == Free {
      hide Find;
      assert forall s: Slot :: Hit(u[s], other, false) <==> Hit(t[s], other, false);
      SameFind(t, u, other);
    }
  }

  lemma SameFind(t: Table, u: Table, ip: uint32)
    requires forall s: Slot :: Hit(u[s], ip, false) <==> Hit(t[s], ip, false)
    ensures Find(u, ip, false) == Find(t, ip, false)
  {
    FindIsFirst(t, ip, false);
    FindIsFirst(u, ip, false);
    hide Find;
    var r, q := Find(t, ip, false), Find(u, ip, false);
    if r.Some? && q.Some? {
      ProbedIsAtDist(ip, Dist(ip, q.value), q.value);
      ProbedIsAtDist(ip, Dist(ip, q.value), r.value);
    }
  }

  /** A probe changes what an address resolves to if and only if it is a probe for that address, which resolves, and it
      meets a hole first; then the address does not resolve any more. */
  lemma ProbeKeepsLookupIff(t: Table, ip: uint32, port: uint8, vlan: uint16, other: uint32)
    ensures Lookup(Mark(t, ip, port, vlan), other) == Lookup(t, other) <==>
      !(other == ip && Lookup(t, ip).Some? && MeetsHoleFirst(t, ip))
    ensures MeetsHoleFirst(t, ip) ==> Lookup(Mark(t, ip, port, vlan), ip) == None
  {
    hide Find;
    if other != ip { MarkKeepsOthers(t, ip, port, vlan, other); }
    MarkHits(t, ip);
    FindOwner(t, ip);
    var k, u := Find(t, ip, true), Mark(t, ip, port, vlan);
    if k.Some? && t[k.value].state == Free { MarkedIsFound(t, ip, port, vlan); }
  }

  lemma MarkedIsFound(t: Table, ip: uint32, port: uint8, vlan: uint16)
    requires var k := Find(t, ip, true); k.Some? && t[k.value].state == Free
    ensures Lookup(Mark(t, ip, port, vlan), ip) == None
  {
    var k, u := Find(t, ip, true).value, Mark(t, ip, port, vlan);
    FindIsFirst(t, ip, true);
    FindIsFirst(u, ip, false);
    hide Find;
    assert Hit(u[k], ip, false);
    var r := Find(u, ip, false);
    if r.Some? {
      ProbedIsAtDist(ip, Dist(ip, k), k);
      ProbedIsAtDist(ip, Dist(ip, k), r.value);
    }
  }

  // ----- a reachable table in which a probe gives an address a second slot

  lemma SmallMod(h: Slot)
    ensures (h + 0) % TABLE_SIZE == h
  {
  }

  lemma AtHome(ip: uint32, s: Slot)
    ensures Dist(ip, s) == 0 <==> s == Home(ip)
  {
    hide Dist, Home;
    SmallMod(Home(ip));
    assert Probed(ip, 0) == Home(ip);
    hide Probed;
    ProbedIsAtDist(ip, 0, s);
  }

  lemma FindTakesHome(t: Table, ip: uint32, findFree: bool)
    requires Hit(t[Home(ip)], ip, findFree)
    ensures Find(t, ip, findFree) == Some(Home(ip))
  {
    hide Find, Home, Dist, Hit;
    FindIsFirst(t, ip, findFree);
    AtHome(ip, Home(ip));
    var r := Find(t, ip, findFree);
    if r.Some? { AtHome(ip, r.value); }
  }

  lemma FindSkipsHome(t: Table, ip: uint32)
    requires forall s: Slot :: t[s].state == Free || t[s].ip != ip
    requires t[Home(ip)].state != Free && t[Probed(ip, 1)].state == Free
    ensures Find(t, ip, false) == None && Find(t, ip, true) == Some(Probed(ip, 1))
  {
    hide Find, Home, Dist, Probed;
    FindIsFirst(t, ip, false);
    FindIsFirst(t, ip, true);
    ProbedIsAtDist(ip, 1, Probed(ip, 1));
    var r := Find(t, ip, true);
    if r.Some? {
      AtHome(ip, r.value);
      ProbedIsAtDist(ip, 1, r.value);
    }
  }

  /** Two addresses of one home slot: the first is learned, the second behind it, and the first is deleted. */
  function AfterHole(a: uint32, b: uint32, mac: Mac, port: uint8, vlan: uint16): Table {
    Delete(Add(Add(Initial().t, a, mac, port, vlan).1, b, mac, port, vlan).1, a).1
  }

  lemma HoleOnPath(a: uint32, b: uint32, mac: Mac, port: uint8, vlan: uint16)
    requires Home(a) == Home(b) && a != b
    ensures var t := AfterHole(a, b, mac, port, vlan);
      && t[Home(b)] == ZERO && t[Probed(b, 1)] == Learned(b, mac, port, vlan) && Probed(b, 1) != Home(b)
      && forall s: Slot :: s != Probed(b, 1) ==> t[s] == ZERO
  {
    var t0 := Initial().t;
    assert forall s: Slot :: t0[s] == ZERO;
    assert Probed(b, 1) != Home(b);
    hide Find, Home, Probed, Initial;
    FindTakesHome(t0, a, true);
    FindNone(t0, a);
    var t1 := Add(t0, a, mac, port, vlan).1;
    FindSkipsHome(t1, b);
    var t2 := Add(t1, b, mac, port, vlan).1;
    FindTakesHome(t2, a, false);
  }

  lemma FindNone(t: Table, ip: uint32)
    requires forall s: Slot :: t[s].state == Free
    ensures Find(t, ip, false) == None
  {
    FindIsFirst(t, ip, false);
    hide Find;
  }

  lemma HoleIsMetFirst(a: uint32, b: uint32, mac: Mac, port: uint8, vlan: uint16)
    requires Home(a) == Home(b) && a != b
    ensures var t := AfterHole(a, b, mac, port, vlan); MeetsHoleFirst(t, b) && Unique(t)
  {
    var t := AfterHole(a, b, mac, port, vlan);
    HoleOnPath(a, b, mac, port, vlan);
    hide AfterHole, Home, Probed, Find;
    FindTakesHome(t, b, true);
    assert t[Probed(b, 1)].ip == b;
  }

  /** Two addresses of one home slot are learned and the first deleted, on a node with an interface; nothing else. */
  function CollidingCalls(port: uint8, ip: uint32, own: Mac, a: uint32, b: uint32, mac: Mac, vlan: uint16): seq<Op> {
    [OpSetIntf(port, ip, own), OpAdd(a, mac, port, vlan), OpAdd(b, mac, port, vlan), OpDelete(a)]
  }

  lemma FourCalls(port: uint8, ip: uint32, own: Mac, a: uint32, b: uint32, mac: Mac, vlan: uint16)
    requires port < 32
    ensures var n := Run(Initial(), CollidingCalls(port, ip, own, a, b, mac, vlan));
      n.t == AfterHole(a, b, mac, port, vlan) && n.intf[port].valid
  {
    hide Add, Delete, Initial;
    var w, x := OpSetIntf(port, ip, own), OpAdd(a, mac, port, vlan);
    var y, z := OpAdd(b, mac, port, vlan), OpDelete(a);
    assert [w, x, y, z][..3] == [w, x, y] && [w, x, y][..2] == [w, x] && [w, x][..1] == [w] && [w][..0] == [];
    assert Run(Initial(), [w]) == Step(Run(Initial(), []), w);
    assert Run(Initial(), [w, x]) == Step(Run(Initial(), [w]), x);
    assert Run(Initial(), [w, x, y]) == Step(Run(Initial(), [w, x]), y);
  }

  lemma HoleResolves(a: uint32, b: uint32, mac: Mac, port: uint8, vlan: uint16)
    requires Home(a) == Home(b) && a != b
    ensures Lookup(AfterHole(a, b, mac, port, vlan), b) == Some((mac, port))
  {
    var t := AfterHole(a, b, mac, port, vlan);
    HoleOnPath(a, b, mac, port, vlan);
    FindOwner(t, b);
    hide AfterHole, Home, Probed, Find;
    var s := Probed(b, 1);
    assert t[s].state != Free && t[s].ip == b;
  }

  /** After such calls the second address resolves and has one slot; a probe for it gives it a second one, and the
      address does not resolve any more. */
  lemma ProbeCanDuplicate(port: uint8, ip: uint32, own: Mac, mac: Mac, vlan: uint16)
    requires port < 32
    ensures var b := 0x0A00_1F00;
      var n := Run(Initial(), CollidingCalls(port, ip, own, 0x0A00_00C5, b, mac, vlan));
      var n' := Step(n, OpProbe(b, port, vlan));
      && Unique(n.t) && Lookup(n.t, b) == Some((mac, port))
      && !Unique(n'.t) && Lookup(n'.t, b) == None
  {
    var a, b := 0x0A00_00C5, 0x0A00_1F00;
    TwoAddressesCollide();
    hide Home, Initial, Find;
    HoleIsMetFirst(a, b, mac, port, vlan);
    HoleResolves(a, b, mac, port, vlan);
    FourCalls(port, ip, own, a, b, mac, vlan);
    var t := AfterHole(a, b, mac, port, vlan);
    MarkKeepsUniqueIff(t, b, port, vlan);
    ProbeKeepsLookupIff(t, b, port, vlan, b);
    ProbeMarks(Run(Initial(), CollidingCalls(port, ip, own, a, b, mac, vlan)), b, port, vlan);
    hide Run, AfterHole, CollidingCalls, Mark, MeetsHoleFirst, Unique;
  }

  lemma ProbeMarks(n: Node, ip: uint32, port: uint8, vlan: uint16)
    requires port < 32 && n.intf[port].valid
    ensures Step(n, OpProbe(ip, port, vlan)).t == Mark(n.t, ip, port, vlan)
  {
    hide Mark, Frame, Send;
  }
}

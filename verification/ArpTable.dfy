/** The ARP neighbour table (sw/firmware/arp.c): a 256-slot linear-probing table that ages in place. */
module ArpTable {
  import opened Words
  import opened Punt
  import opened ArpHash

  const TABLE_SIZE := 256
  const AGE_MAX := 300
  const PROBE_RETRY_MAX: uint8 := 3
  const INCOMPLETE_TTL := 5
  const ETH_TYPE_ARP := 0x0806
  const OP_REQUEST: uint8 := 1
  const OP_REPLY: uint8 := 2
  const BCAST_MAC: Mac := [255, 255, 255, 255, 255, 255]

  datatype NeighbourState = Free | Incomplete | Reachable | Stale

  datatype Entry = Entry(
    ip: uint32, mac: Mac, port: uint8, vlan: uint16, age: uint32, retry: uint8, state: NeighbourState)

  const ZERO := Entry(0, [0, 0, 0, 0, 0, 0], 0, 0, 0, 0, Free)

  datatype Intf = Intf(ip: uint32, mac: Mac, valid: bool)

  type Slot = s: int | 0 <= s < 256
  type Table = t: seq<Entry> | |t| == 256 witness seq(256, _ => ZERO)
  type Intfs = f: seq<Intf> | |f| == 32 witness seq(32, _ => Intf(0, [0, 0, 0, 0, 0, 0], false))

  /** One firmware instance: its table, its port interfaces and the frames it has queued for transmission. */
  datatype Node = Node(t: Table, intf: Intfs, out: seq<PuntPkt>)

  // ----- what each call does to the state

  function Probed(ip: uint32, i: nat): Slot { (Home(ip) + i) % TABLE_SIZE }

  /** How far along the probe path of `ip` the slot `s` lies. */
  function Dist(ip: uint32, s: Slot): Slot { (s - Home(ip)) % TABLE_SIZE }

  predicate Owns(e: Entry, ip: uint32) { e.state != Free && e.ip == ip }

  predicate Hit(e: Entry, ip: uint32, findFree: bool) {
    Owns(e, ip) || (findFree && e.state == Free)
  }

  function FindFrom(t: Table, ip: uint32, findFree: bool, i: nat): Option<Slot>
    requires i <= TABLE_SIZE
    decreases TABLE_SIZE - i
  {
    if i == TABLE_SIZE then None
    else if Hit(t[Probed(ip, i)], ip, findFree) then Some(Probed(ip, i))
    else FindFrom(t, ip, findFree, i + 1)
  }

  function Find(t: Table, ip: uint32, findFree: bool): Option<Slot> { FindFrom(t, ip, findFree, 0) }

  lemma ProbedIsAtDist(ip: uint32, i: nat, s: Slot)
    requires i < TABLE_SIZE
    ensures Dist(ip, s) == i <==> s == Probed(ip, i)
  {
    ModInverse(Home(ip), i, s);
  }

  lemma ModInverse(home: Slot, i: Slot, s: Slot)
    ensures (s - home) % TABLE_SIZE == i <==> s == (home + i) % TABLE_SIZE
  {
    assert (s - home) % TABLE_SIZE == if s >= home then s - home else s - home + TABLE_SIZE;
    assert (home + i) % TABLE_SIZE == if home + i < TABLE_SIZE then home + i else home + i - TABLE_SIZE;
  }

  /** The search returns the hit closest to the home slot, and misses only when no slot of the table hits. */
  lemma FindFromIsFirst(t: Table, ip: uint32, findFree: bool, i: nat)
    requires i <= TABLE_SIZE
    ensures var r := FindFrom(t, ip, findFree, i);
      && (r.Some? ==> Hit(t[r.value], ip, findFree) && Dist(ip, r.value) >= i)
      && (forall s: Slot :: i <= Dist(ip, s) && (r.Some? ==> Dist(ip, s) < Dist(ip, r.value)) ==>
        !Hit(t[s], ip, findFree))
    decreases TABLE_SIZE - i
  {
    if i < TABLE_SIZE {
      FindFromIsFirst(t, ip, findFree, i + 1);
      forall s: Slot { ProbedIsAtDist(ip, i, s); }
    }
  }

  lemma FindIsFirst(t: Table, ip: uint32, findFree: bool)
    ensures var r := Find(t, ip, findFree);
      && (r.Some? ==> Hit(t[r.value], ip, findFree))
      && (forall s: Slot :: (r.Some? ==> Dist(ip, s) < Dist(ip, r.value)) ==> !Hit(t[s], ip, findFree))
  {
    FindFromIsFirst(t, ip, findFree, 0);
  }

  function Learned(ip: uint32, mac: Mac, port: uint8, vlan: uint16): Entry {
    Entry(ip, mac, port, vlan, 0, PROBE_RETRY_MAX, Reachable)
  }

  function Add(t: Table, ip: uint32, mac: Mac, port: uint8, vlan: uint16): (HalCode, Table) {
    var own := Find(t, ip, false);
    var k := if own.Some? then own else Find(t, ip, true);
    if k.None? then (HalFull, t) else (HalOk, t[k.value := Learned(ip, mac, port, vlan)])
  }

  function Delete(t: Table, ip: uint32): (HalCode, Table) {
    var k := Find(t, ip, false);
    if k.None? then (HalInval, t) else (HalOk, t[k.value := ZERO])
  }

  function Lookup(t: Table, ip: uint32): Option<(Mac, uint8)> {
    var k := Find(t, ip, false);
    if k.None? || t[k.value].state != Reachable then None else Some((t[k.value].mac, t[k.value].port))
  }

  /** The 42 bytes of an Ethernet frame holding an ARP packet. */
  function Frame(dst: Mac, mac: Mac, oper: uint8, ip: uint32, tha: Mac, tpa: uint32): (f: seq<uint8>)
    ensures |f| == 42
  {
    dst + mac + [8, 6, 0, 1, 8, 0, 6, 4, 0, oper] + mac + Be32(ip) + tha + Be32(tpa)
  }

  function ArpPkt(port: uint8, vlan: uint16, frame: seq<uint8>): PuntPkt
    requires |frame| == 42
  {
    PuntPkt(0, port, 42, vlan, PUNT_REASON_ARP, Padded(frame))
  }

  function SendReply(n: Node, port: uint8, vlan: uint16, sha: Mac, spa: uint32, mac: Mac, ip: uint32): Node {
    n.(out := Send(n.out, ArpPkt(port, vlan, Frame(sha, mac, OP_REPLY, ip, sha, spa))).1)
  }

  predicate ForUs(n: Node, port: uint8, tpa: uint32) {
    port < 32 && n.intf[port].valid && n.intf[port].ip == tpa
  }

  function Process(n: Node, pkt: PuntPkt): Node {
    if pkt.pktLen < 42 || ReadBe16(pkt.data, 12) != ETH_TYPE_ARP then n
    else
      var oper := ReadBe16(pkt.data, 20);
      var sha: Mac := pkt.data[22..28];
      var spa, tpa := ReadBe32(pkt.data, 28), ReadBe32(pkt.data, 38);
      var learned := n.(t := Add(n.t, spa, sha, pkt.ingPort, pkt.vlanId).1);
      if oper == OP_REQUEST && ForUs(n, pkt.ingPort, tpa) then
        var me := n.intf[pkt.ingPort];
        SendReply(learned, pkt.ingPort, pkt.vlanId, sha, spa, me.mac, me.ip)
      else if oper == OP_REQUEST || oper == OP_REPLY then learned
      else n
  }

  /** What a received packet makes the switching table learn: the sender's MAC at the port the packet came in on, when
      the neighbour table took the sender. */
  function Told(n: Node, pkt: PuntPkt): seq<(Mac, uint8)> {
    if pkt.pktLen < 42 || ReadBe16(pkt.data, 12) != ETH_TYPE_ARP then []
    else
      var oper := ReadBe16(pkt.data, 20);
      var sha: Mac := pkt.data[22..28];
      if oper != OP_REQUEST && oper != OP_REPLY then []
      else if Add(n.t, ReadBe32(pkt.data, 28), sha, pkt.ingPort, pkt.vlanId).0 != HalOk then []
      else [(sha, pkt.ingPort)]
  }

  /** Marking the target INCOMPLETE: only a free slot is filled, and its stale fields are left as they are. */
  function Mark(t: Table, ip: uint32, port: uint8, vlan: uint16): Table {
    var k := Find(t, ip, true);
    if k.Some? && t[k.value].state == Free
    then t[k.value := t[k.value].(ip := ip, port := port, vlan := vlan, retry := PROBE_RETRY_MAX, state := Incomplete)]
    else t
  }

  function Probe(n: Node, ip: uint32, port: uint8, vlan: uint16): (HalCode, Node) {
    if port >= 32 || !n.intf[port].valid then (HalInval, n)
    else
      var me := n.intf[port];
      var (code, out) := Send(n.out, ArpPkt(port, vlan, Frame(BCAST_MAC, me.mac, OP_REQUEST, me.ip, BCAST_MAC, ip)));
      (code, n.(t := Mark(n.t, ip, port, vlan), out := out))
  }

  /** Seconds since the stamp of an entry, in 32-bit arithmetic. */
  function Elapsed(now: uint32, e: Entry): uint32 { (now - e.age) % TWO_32 }

  function Retried(e: Entry, now: uint32): Entry
    requires e.retry > 0
  {
    e.(retry := e.retry - 1, age := now)
  }

  /** What one pass of arp_age does at one slot. */
  function AgeSlot(n: Node, i: Slot, now: uint32): Node {
    var e := n.t[i];
    match e.state
    case Free => n
    case Incomplete =>
      if Elapsed(now, e) < INCOMPLETE_TTL then n
      else if e.retry == 0 then n.(t := n.t[i := ZERO])
      else Probe(n.(t := n.t[i := Retried(e, now)]), e.ip, e.port, e.vlan).1
    case Reachable =>
      if Elapsed(now, e) < AGE_MAX then n else n.(t := n.t[i := e.(state := Stale)])
    case Stale =>
      if Elapsed(now, e) < AGE_MAX + INCOMPLETE_TTL then n
      else if e.retry == 0 then n.(t := Delete(n.t, e.ip).1)
      else
        var m := Probe(n.(t := n.t[i := Retried(e, now)]), e.ip, e.port, e.vlan).1;
        m.(t := m.t[i := m.t[i].(state := Incomplete)])
  }

  function AgeFrom(n: Node, i: nat, now: uint32): Node
    requires i <= TABLE_SIZE
    decreases TABLE_SIZE - i
  {
    if i == TABLE_SIZE then n else AgeFrom(AgeSlot(n, i, now), i + 1, now)
  }

  function Age(n: Node, now: uint32): Node { AgeFrom(n, 0, now) }

  function SetIntf(n: Node, port: uint8, ip: uint32, mac: Mac): Node {
    if port >= 32 then n else n.(intf := n.intf[port := Intf(ip, mac, true)])
  }

  // ----- the firmware itself, changing its arrays in place

  class Firmware {
    const slots: array<Entry>
    const intf: array<Intf>
    var out: seq<PuntPkt>
    var told: seq<(Mac, uint8)> // the calls of fdb_learn so far

    ghost predicate Valid()
      reads this
    {
      slots.Length == TABLE_SIZE && intf.Length == 32
    }

    ghost function State(): Node
      reads this, slots, intf
      requires Valid()
    {
      Node(slots[..], intf[..], out)
    }

    constructor ()
      ensures Valid() && fresh(slots) && fresh(intf)
      ensures State() == Node(seq(TABLE_SIZE, _ => ZERO), seq(32, _ => Intf(0, [0, 0, 0, 0, 0, 0], false)), [])
    {
      slots := new Entry[TABLE_SIZE](_ => ZERO);
      intf := new Intf[32](_ => Intf(0, [0, 0, 0, 0, 0, 0], false));
      out, told := [], [];
    }

    method SetPortIntf(port: uint8, ip: uint32, mac: Mac)
      requires Valid()
      modifies intf
      ensures Valid() && State() == SetIntf(old(State()), port, ip, mac)
    {
      if port >= 32 { return; }
      intf[port] := Intf(ip, mac, true);
    }

    method ArpFind(ip: uint32, findFree: bool) returns (r: Option<Slot>)
      requires Valid()
      ensures r == Find(State().t, ip, findFree)
    {
      var start := Home(ip);
      for i := 0 to TABLE_SIZE
        invariant FindFrom(State().t, ip, findFree, i) == Find(State().t, ip, findFree)
      {
        var idx: Slot := (start + i) % TABLE_SIZE;
        if slots[idx].state != Free && slots[idx].ip == ip { return Some(idx); }
        if findFree && slots[idx].state == Free { return Some(idx); }
      }
      return None;
    }

    method ArpAdd(ip: uint32, mac: Option<Mac>, port: uint8, vlan: uint16) returns (code: HalCode)
      requires Valid()
      modifies slots, this`told
      ensures mac.None? ==> code == HalInval && State() == old(State())
      ensures mac.Some? ==> (code, State().t) == Add(old(State().t), ip, mac.value, port, vlan)
      ensures told == if code == HalOk then old(told) + [(mac.value, port)] else old(told)
    {
      if mac.None? { return HalInval; }
      var k := ArpFind(ip, false);
      if k.None? {
        k := ArpFind(ip, true);
        if k.None? { return HalFull; }
      }
      slots[k.value] := slots[k.value].(ip := ip, port := port, vlan := vlan, age := 0,
                                        retry := PROBE_RETRY_MAX, state := Reachable, mac := mac.value);
      told := told + [(mac.value, port)];
      return HalOk;
    }

    method ArpDelete(ip: uint32) returns (code: HalCode)
      requires Valid()
      modifies slots
      ensures (code, State().t) == Delete(old(State().t), ip)
    {
      var k := ArpFind(ip, false);
      if k.None? { return HalInval; }
      slots[k.value] := ZERO;
      return HalOk;
    }

    method ArpLookup(ip: uint32) returns (r: Option<(Mac, uint8)>)
      requires Valid()
      ensures r == Lookup(State().t, ip)
    {
      var k := ArpFind(ip, false);
      if k.None? || slots[k.value].state != Reachable { return None; }
      return Some((slots[k.value].mac, slots[k.value].port));
    }

    method PuntTxSend(pkt: PuntPkt) returns (code: HalCode)
      requires Valid()
      modifies this`out
      ensures (code, out) == Send(old(out), pkt)
    {
      if |out| >= PUNT_RING_SLOTS { return HalFull; }
      out := out + [pkt];
      return HalOk;
    }

    method SendArpReply(port: uint8, vlan: uint16, sha: Mac, spa: uint32, mac: Mac, ip: uint32)
      requires Valid()
      modifies this`out
      ensures State() == SendReply(old(State()), port, vlan, sha, spa, mac, ip)
    {
      var data := BuildArp(sha, mac, OP_REPLY, ip, sha, spa);
      var code := PuntTxSend(PuntPkt(0, port, 42, vlan, PUNT_REASON_ARP, data[..]));
    }

    method ArpProcessPkt(pkt: PuntPkt)
      requires Valid()
      modifies slots, this`out, this`told
      ensures Valid() && State() == Process(old(State()), pkt)
      ensures told == old(told) + Told(old(State()), pkt)
    {
      if pkt.pktLen < 42 { return; }
      if ReadBe16(pkt.data, 12) != ETH_TYPE_ARP { return; }
      var oper := ReadBe16(pkt.data, 14 + 6);
      var sha: Mac := pkt.data[14 + 8..14 + 14];
      var spa, tpa := ReadBe32(pkt.data, 14 + 14), ReadBe32(pkt.data, 14 + 24);
      var ing := pkt.ingPort;
      if oper == OP_REQUEST {
        if ing < 32 && intf[ing].valid && intf[ing].ip == tpa {
          var _ := ArpAdd(spa, Some(sha), ing, pkt.vlanId);
          SendArpReply(ing, pkt.vlanId, sha, spa, intf[ing].mac, intf[ing].ip);
        } else {
          var _ := ArpAdd(spa, Some(sha), ing, pkt.vlanId);
        }
      } else if oper == OP_REPLY {
        var _ := ArpAdd(spa, Some(sha), ing, pkt.vlanId);
      }
    }

    method ArpProbe(target: uint32, port: uint8, vlan: uint16) returns (code: HalCode)
      requires Valid()
      modifies slots, this`out
      ensures Valid() && (code, State()) == Probe(old(State()), target, port, vlan)
    {
      if port >= 32 { return HalInval; }
      if !intf[port].valid { return HalInval; }
      var k := ArpFind(target, true);
      if k.Some? && slots[k.value].state == Free {
        slots[k.value] := slots[k.value].(ip := target, port := port, vlan := vlan,
                                          retry := PROBE_RETRY_MAX, state := Incomplete);
      }
      var data := BuildArp(BCAST_MAC, intf[port].mac, OP_REQUEST, intf[port].ip, BCAST_MAC, target);
      code := PuntTxSend(PuntPkt(0, port, 42, vlan, PUNT_REASON_ARP, data[..]));
    }

    method ArpAge(now: uint32)
      requires Valid()
      modifies slots, this`out
      ensures Valid() && State() == Age(old(State()), now)
    {
      for i := 0 to TABLE_SIZE
        invariant Valid()
        invariant AgeFrom(State(), i, now) == Age(old(State()), now)
      {
        AgeOne(i, now);
      }
    }

    method SpendRetry(i: Slot, now: uint32)
      requires Valid() && slots[i].retry > 0
      modifies slots
      ensures slots[..] == old(slots[..])[i := Retried(old(slots[i]), now)]
    {
      slots[i] := slots[i].(retry := slots[i].retry - 1);
      slots[i] := slots[i].(age := now);
    }

    /** The body of the loop of arp_age. */
    method AgeOne(i: Slot, now: uint32)
      requires Valid()
      modifies slots, this`out
      ensures Valid() && State() == AgeSlot(old(State()), i, now)
    {
      var e := slots[i];
      if e.state == Free { return; }
      var age := (now - e.age) % TWO_32;
      if e.state == Incomplete {
        if age >= INCOMPLETE_TTL {
          if e.retry > 0 {
            SpendRetry(i, now);
            var _ := ArpProbe(e.ip, e.port, e.vlan);
          } else {
            slots[i] := ZERO;
          }
        }
      } else if e.state == Reachable {
        if age >= AGE_MAX { slots[i] := slots[i].(state := Stale); }
      } else {
        if age >= AGE_MAX + INCOMPLETE_TTL {
          if e.retry > 0 {
            SpendRetry(i, now);
            var _ := ArpProbe(e.ip, e.port, e.vlan);
            slots[i] := slots[i].(state := Incomplete);
          } else {
            var _ := ArpDelete(e.ip);
          }
        }
      }
    }
  }

  /** Writes `bytes` at `off` of a buffer and moves the offset on. */
  method Put(buf: array<uint8>, off: nat, bytes: seq<uint8>) returns (end: nat)
    requires off + |bytes| <= buf.Length
    modifies buf
    ensures end == off + |bytes|
    ensures buf[..end] == old(buf[..off]) + bytes && buf[end..] == old(buf[end..])
  {
    for i := 0 to |bytes|
      invariant buf[..off] == old(buf[..off])
      invariant buf[off..off + i] == bytes[..i]
      invariant buf[off + |bytes|..] == old(buf[off + |bytes|..])
    {
      buf[off + i] := bytes[i];
    }
    end := off + |bytes|;
  }

  method PutAddress(buf: array<uint8>, off: nat, mac: Mac, ip: uint32) returns (end: nat)
    requires off + 10 <= buf.Length
    modifies buf
    ensures end == off + 10
    ensures buf[..end] == old(buf[..off]) + (mac + Be32(ip)) && buf[end..] == old(buf[end..])
  {
    end := Put(buf, off, mac);
    end := Put(buf, end, Be32(ip));
  }

  method PutHeader(buf: array<uint8>, dst: Mac, mac: Mac, oper: uint8) returns (end: nat)
    requires 22 <= buf.Length
    modifies buf
    ensures end == 22
    ensures buf[..end] == dst + mac + [8, 6, 0, 1, 8, 0, 6, 4, 0, oper] && buf[end..] == old(buf[end..])
  {
    end := Put(buf, 0, dst);
    end := Put(buf, end, mac);
    end := Put(buf, end, [8, 6, 0, 1, 8, 0, 6, 4, 0, oper]);
  }

  /** The packet builder shared by arp_probe and send_arp_reply: fields are laid down at a moving offset. */
  method BuildArp(dst: Mac, mac: Mac, oper: uint8, ip: uint32, tha: Mac, tpa: uint32) returns (buf: array<uint8>)
    ensures fresh(buf) && buf.Length == PUNT_DATA_BYTES
    ensures buf[..] == Padded(Frame(dst, mac, oper, ip, tha, tpa))
  {
    buf := new uint8[PUNT_DATA_BYTES](_ => 0);
    ghost var blank := buf[..];
    var off := PutHeader(buf, dst, mac, oper);
    off := PutAddress(buf, off, mac, ip);
    off := PutAddress(buf, off, tha, tpa);
    ghost var head := dst + mac + [8, 6, 0, 1, 8, 0, 6, 4, 0, oper];
    assert buf[..off] == head + (mac + Be32(ip)) + (tha + Be32(tpa));
    assert buf[..off] == Frame(dst, mac, oper, ip, tha, tpa);
    assert buf[off..] == blank[42..] == seq(PUNT_DATA_BYTES - 42, _ => 0);
    assert buf[..] == buf[..off] + buf[off..];
  }
}

/** The packet pipeline of the firmware's functional model (sw/firmware/test/pkt_model.c): seven stages, each a key
    extraction, a lookup in the table store and an action. */
module PktModel {
  import opened Words
  import opened Hal
  import opened SimHal

  const NUM_STAGES: uint8 := 7
  const HDR_SIZE: nat := 512

  const OFF_ETH_DST: nat := 0
  const OFF_ETH_TYPE: nat := 12
  const OFF_VLAN_TCI: nat := 14
  const OFF_IPV4_DSCP: nat := 19
  const OFF_IPV4_SRC: nat := 30
  const OFF_IPV4_DST: nat := 34
  const OFF_TCP_DPORT: nat := 40

  const ACTION_FORWARD: uint16 := 0x1001
  const ACTION_DROP: uint16 := 0x1002
  const ACTION_PERMIT: uint16 := 0x2001
  const ACTION_DENY: uint16 := 0x2002
  const ACTION_L2_FORWARD: uint16 := 0x3001
  const ACTION_FLOOD: uint16 := 0x3002
  const ACTION_PUNT_CPU: uint16 := 0x4001
  const ACTION_VLAN_ASSIGN_PVID: uint16 := 0x5001
  const ACTION_VLAN_ACCEPT_TAGGED: uint16 := 0x5002
  const ACTION_VLAN_DROP: uint16 := 0x5003
  const ACTION_VLAN_STRIP_TAG: uint16 := 0x5004
  const ACTION_VLAN_KEEP_TAG: uint16 := 0x5005
  const ACTION_SET_PRIO: uint16 := 0x6001

  datatype VlanAct = ActNone | ActStrip | ActKeep

  type Hdr = h: seq<uint8> | |h| == 512 witness seq(512, _ => 0)

  datatype Phv = Phv(
    hdr: Hdr, igPort: uint8, egPort: uint8, drop: bool, punt: bool, vlanId: uint16, qosPrio: uint8, vlanAction: VlanAct)

  function Pad(b: seq<uint8>): KeyBytes
    requires |b| <= 64
  {
    b + seq(64 - |b|, _ => 0)
  }

  function Slice(h: Hdr, off: nat, n: nat): (s: seq<uint8>)
    requires off + n <= HDR_SIZE
    ensures |s| == n
  {
    h[off..off + n]
  }

  /** The match key of a stage, and its length. */
  function KeyBytesOf(p: Phv, stage: uint8): (k: seq<uint8>)
    ensures |k| <= 10
  {
    match stage
    case 0 => Slice(p.hdr, OFF_IPV4_DST, 4)
    case 1 => Slice(p.hdr, OFF_IPV4_SRC, 4) + Slice(p.hdr, OFF_IPV4_DST, 4) + Slice(p.hdr, OFF_TCP_DPORT, 2)
    case 2 => Slice(p.hdr, OFF_ETH_DST, 6)
    case 3 => Slice(p.hdr, OFF_ETH_TYPE, 2)
    case 4 => [p.igPort] + Slice(p.hdr, OFF_VLAN_TCI, 2)
    case 5 => [p.hdr[OFF_IPV4_DSCP]]
    case _ => [p.egPort, p.vlanId % 256]
  }

  function Be16(hi: uint8, lo: uint8): uint16 {
    var h: int := hi;
    h * 256 + lo
  }

  function Applied(p: Phv, e: TcamEntry): Phv {
    var a := e.actionId;
    if a == ACTION_FORWARD then p.(egPort := e.params[0], hdr := e.params[1..7] + p.hdr[6..])
    else if a == ACTION_DROP || a == ACTION_DENY || a == ACTION_VLAN_DROP then p.(drop := true)
    else if a == ACTION_L2_FORWARD then p.(egPort := e.params[0])
    else if a == ACTION_FLOOD then p.(egPort := 0xFF)
    else if a == ACTION_PUNT_CPU then p.(punt := true)
    else if a == ACTION_VLAN_ASSIGN_PVID then p.(vlanId := Be16(e.params[0], e.params[1]))
    else if a == ACTION_VLAN_ACCEPT_TAGGED then
      if e.params[0] == 0 && e.params[1] == 0
      then p.(vlanId := Be16(p.hdr[OFF_VLAN_TCI] % 16, p.hdr[OFF_VLAN_TCI + 1]))
      else p.(vlanId := Be16(e.params[0], e.params[1]))
    else if a == ACTION_VLAN_STRIP_TAG then
      p.(vlanAction := ActStrip, hdr := p.hdr[OFF_VLAN_TCI := 0][OFF_VLAN_TCI + 1 := 0])
    else if a == ACTION_VLAN_KEEP_TAG then p.(vlanAction := ActKeep)
    else if a == ACTION_SET_PRIO then p.(qosPrio := e.params[0])
    else p
  }

  function Hit(d: seq<Rec>, p: Phv, stage: uint8): Option<TcamEntry> {
    var k := KeyBytesOf(p, stage);
    Lookup(d, stage, Pad(k), |k|)
  }

  function Step(d: seq<Rec>, p: Phv, stage: uint8): Phv {
    match Hit(d, p, stage)
    case None => p
    case Some(e) => Applied(p, e)
  }

  predicate Leaving(p: Phv) { p.drop || p.punt }

  /** The packet as it comes to stage `k`; once dropped or punted it passes through unchanged. */
  function Before(d: seq<Rec>, p: Phv, k: uint8): Phv
    decreases k
  {
    if k == 0 then p
    else
      var q := Before(d, p, k - 1);
      if Leaving(q) then q else Step(d, q, k - 1)
  }

  predicate Reaches(d: seq<Rec>, p: Phv, k: uint8) { !Leaving(Before(d, p, k)) }

  function Forwarded(d: seq<Rec>, p: Phv): Phv { Before(d, p, NUM_STAGES) }

  lemma {:induction false} LeavingIsFinal(d: seq<Rec>, p: Phv, k: uint8, m: uint8)
    requires k <= m && Leaving(Before(d, p, k))
    ensures Before(d, p, m) == Before(d, p, k)
    decreases m
  {
    if k < m { LeavingIsFinal(d, p, k, m - 1); }
  }

  /** No action touches the header bytes the later keys are taken from. */
  lemma AppliedKeepsFields(p: Phv, e: TcamEntry)
    ensures Applied(p, e).hdr[6..14] == p.hdr[6..14] && Applied(p, e).hdr[16..] == p.hdr[16..]
  {
    assert forall i :: 6 <= i < HDR_SIZE && i != 14 && i != 15 ==> Applied(p, e).hdr[i] == p.hdr[i];
  }

  /** The type, addresses, ports and DSCP byte a stage matches on are those the packet came in with. */
  lemma {:induction false} BeforeKeepsFields(d: seq<Rec>, p: Phv, k: uint8)
    ensures Before(d, p, k).hdr[6..14] == p.hdr[6..14] && Before(d, p, k).hdr[16..] == p.hdr[16..]
    decreases k
  {
    if k > 0 {
      BeforeKeepsFields(d, p, k - 1);
      var q := Before(d, p, k - 1);
      var h := Hit(d, q, k - 1);
      if h.Some? { AppliedKeepsFields(q, h.value); }
    }
  }

  class Packet {
    const hdr: array<uint8>
    var igPort: uint8
    var egPort: uint8
    var drop: bool
    var punt: bool
    var vlanId: uint16
    var qosPrio: uint8
    var vlanAction: VlanAct

    ghost predicate Valid() { hdr.Length == HDR_SIZE }

    ghost function Value(): Phv
      reads this, hdr
      requires Valid()
    {
      Phv(hdr[..], igPort, egPort, drop, punt, vlanId, qosPrio, vlanAction)
    }

    constructor (port: uint8)
      ensures Valid() && fresh(hdr)
      ensures Value() == Phv(seq(512, _ => 0), port, 0, false, false, 0, 0, ActNone)
    {
      hdr := new uint8[HDR_SIZE](_ => 0);
      igPort, egPort, drop, punt, vlanId, qosPrio, vlanAction := port, 0, false, false, 0, 0, ActNone;
    }

    method CopyToDst(b: seq<uint8>)
      requires Valid() && |b| == 6
      modifies hdr
      ensures hdr[..] == b + old(hdr[6..])
    {
      for i := 0 to 6
        invariant hdr[..i] == b[..i] && hdr[i..] == old(hdr[i..])
      {
        hdr[OFF_ETH_DST + i] := b[i];
      }
    }

    method ApplyAction(e: TcamEntry)
      requires Valid()
      modifies this, hdr
      ensures Value() == Applied(old(Value()), e)
    {
      var a := e.actionId;
      if a == ACTION_FORWARD {
        egPort := e.params[0];
        CopyToDst(e.params[1..7]);
      } else if a == ACTION_DROP {
        drop := true;
      } else if a == ACTION_PERMIT {
      } else if a == ACTION_DENY {
        drop := true;
      } else if a == ACTION_L2_FORWARD {
        egPort := e.params[0];
      } else if a == ACTION_FLOOD {
        egPort := 0xFF;
      } else if a == ACTION_PUNT_CPU {
        punt := true;
      } else if a == ACTION_VLAN_ASSIGN_PVID {
        vlanId := Be16(e.params[0], e.params[1]);
      } else if a == ACTION_VLAN_ACCEPT_TAGGED {
        if e.params[0] == 0 && e.params[1] == 0 {
          vlanId := Be16(hdr[OFF_VLAN_TCI] % 16, hdr[OFF_VLAN_TCI + 1]);
        } else {
          vlanId := Be16(e.params[0], e.params[1]);
        }
      } else if a == ACTION_VLAN_DROP {
        drop := true;
      } else if a == ACTION_VLAN_STRIP_TAG {
        vlanAction := ActStrip;
        hdr[OFF_VLAN_TCI] := 0;
        hdr[OFF_VLAN_TCI + 1] := 0;
      } else if a == ACTION_VLAN_KEEP_TAG {
        vlanAction := ActKeep;
      } else if a == ACTION_SET_PRIO {
        qosPrio := e.params[0];
      }
    }

    method Extract(stage: uint8) returns (key: KeyBytes, keyLen: uint8)
      requires Valid()
      ensures var k := KeyBytesOf(Value(), stage); key == Pad(k) && keyLen == |k|
    {
      var k := [];
      match stage {
        case 0 => k := hdr[OFF_IPV4_DST..OFF_IPV4_DST + 4];
        case 1 => k := hdr[OFF_IPV4_SRC..OFF_IPV4_SRC + 4] + hdr[OFF_IPV4_DST..OFF_IPV4_DST + 4]
                       + hdr[OFF_TCP_DPORT..OFF_TCP_DPORT + 2];
        case 2 => k := hdr[OFF_ETH_DST..OFF_ETH_DST + 6];
        case 3 => k := hdr[OFF_ETH_TYPE..OFF_ETH_TYPE + 2];
        case 4 => k := [igPort] + hdr[OFF_VLAN_TCI..OFF_VLAN_TCI + 2];
        case 5 => k := [hdr[OFF_IPV4_DSCP]];
        case _ => k := [egPort, vlanId % 256];
      }
      assert k == KeyBytesOf(Value(), stage);
      return Pad(k), |k|;
    }

    /** Runs the packet through the seven stages in place. */
    method PktForward(hal: Store)
      requires Valid() && hal.Valid()
      modifies this, hdr
      ensures Value() == Forwarded(hal.Value(), old(Value()))
      ensures hal.Valid() && hal.Value() == old(hal.Value())
    {
      ghost var d, p := hal.Value(), Value();
      hide Before, Step, Leaving;
      StartsUnchanged(d, p);
      for stage: uint8 := 0 to NUM_STAGES
        invariant hal.Valid() && hal.Value() == d && Value() == Before(d, p, stage)
      {
        LeavingTells(Value());
        if drop || punt {
          LeavingIsFinal(d, p, stage, NUM_STAGES);
          break;
        }
        StepTells(d, p, stage);
        hide Applied, Lookup, Pad, KeyBytesOf;
        var key, keyLen := Extract(stage);
        var m := hal.TcamTernaryLookup(stage, key, keyLen);
        if m.Some? { ApplyAction(m.value); }
      }
    }
  }

  lemma StartsUnchanged(d: seq<Rec>, p: Phv)
    ensures Before(d, p, 0) == p
  {
  }

  lemma LeavingTells(p: Phv)
    ensures Leaving(p) <==> p.drop || p.punt
  {
  }

  /** A packet that has come to a stage is looked up there and acted on. */
  lemma StepTells(d: seq<Rec>, p: Phv, k: uint8)
    requires k < 255
    ensures var q := Before(d, p, k);
      var key := KeyBytesOf(q, k);
      var m := Lookup(d, k, Pad(key), |key|);
      !Leaving(q) ==> Before(d, p, k + 1) == if m.Some? then Applied(q, m.value) else q
  {
    hide Applied, Lookup, Pad, KeyBytesOf;
  }
}

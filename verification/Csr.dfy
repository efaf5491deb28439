/** The register mirrors of the simulated hardware layer (sw/firmware/test/sim_hal.c) that the VLAN and QoS modules
    write. A 32-bit port bitmap is held as its 32 bits. */
module Csr {
  import opened Words

  type Bitmap = b: seq<bool> | |b| == 32 witness seq(32, _ => false)

  function NoPorts(): Bitmap { seq(32, _ => false) }

  datatype Mirrors = Mirrors(
    member: seq<Bitmap>, untagged: seq<Bitmap>, dscpMap: seq<uint8>, pvid: seq<uint16>, mode: seq<uint8>)

  predicate Sized(m: Mirrors) {
    |m.member| == |m.untagged| == 256 && |m.dscpMap| == 64 && |m.pvid| == |m.mode| == 32
  }

  function WithVlan(m: Mirrors, vlan: nat, member: Bitmap, untagged: Bitmap): Mirrors
    requires vlan < |m.member| && vlan < |m.untagged|
  {
    m.(member := m.member[vlan := member], untagged := m.untagged[vlan := untagged])
  }

  function Zeroed(): (m: Mirrors)
    ensures Sized(m)
  {
    Mirrors(seq(256, _ => NoPorts()), seq(256, _ => NoPorts()), seq(64, _ => 0), seq(32, _ => 0), seq(32, _ => 0))
  }

  class CsrFile {
    const vlanMember: array<Bitmap>
    const vlanUntagged: array<Bitmap>
    const qosDscpMap: array<uint8>
    const vlanPvid: array<uint16>
    const vlanMode: array<uint8>

    ghost predicate Valid() {
      && vlanMember.Length == vlanUntagged.Length == 256 && qosDscpMap.Length == 64
      && vlanPvid.Length == vlanMode.Length == 32
      && vlanMember != vlanUntagged && vlanMode != qosDscpMap
    }

    ghost function Value(): (m: Mirrors)
      reads vlanMember, vlanUntagged, qosDscpMap, vlanPvid, vlanMode
      requires Valid()
      ensures Sized(m)
    {
      Mirrors(vlanMember[..], vlanUntagged[..], qosDscpMap[..], vlanPvid[..], vlanMode[..])
    }

    constructor ()
      ensures Valid() && fresh(vlanMember) && fresh(vlanUntagged) && fresh(qosDscpMap)
      ensures fresh(vlanPvid) && fresh(vlanMode)
      ensures Value() == Zeroed()
    {
      vlanMember := new Bitmap[256](_ => NoPorts());
      vlanUntagged := new Bitmap[256](_ => NoPorts());
      qosDscpMap := new uint8[64](_ => 0);
      vlanPvid := new uint16[32](_ => 0);
      vlanMode := new uint8[32](_ => 0);
    }

    method HalVlanPvidSet(port: uint8, vlan: uint16) returns (code: HalCode)
      requires Valid()
      modifies vlanPvid
      ensures port >= 32 || vlan > 4095 ==> code == HalInval && Value() == old(Value())
      ensures port < 32 && vlan <= 4095 ==>
        code == HalOk && Value() == old(Value()).(pvid := old(vlanPvid[..])[port := vlan])
    {
      if port >= 32 || vlan > 4095 { return HalInval; }
      vlanPvid[port] := vlan;
      return HalOk;
    }

    method HalVlanModeSet(port: uint8, mode: uint8) returns (code: HalCode)
      requires Valid()
      modifies vlanMode
      ensures port >= 32 ==> code == HalInval && Value() == old(Value())
      ensures port < 32 ==> code == HalOk && Value() == old(Value()).(mode := old(vlanMode[..])[port := mode])
    {
      if port >= 32 { return HalInval; }
      vlanMode[port] := mode;
      return HalOk;
    }

    method HalVlanMemberSet(vlan: uint16, member: Bitmap, untagged: Bitmap) returns (code: HalCode)
      requires Valid()
      modifies vlanMember, vlanUntagged
      ensures vlan > 255 ==> code == HalInval && Value() == old(Value())
      ensures vlan <= 255 ==> code == HalOk
      ensures vlan <= 255 ==> Value() == WithVlan(old(Value()), vlan, member, untagged)
    {
      if vlan > 255 { return HalInval; }
      vlanMember[vlan] := member;
      vlanUntagged[vlan] := untagged;
      return HalOk;
    }

    method HalQosDscpMapSet(dscp: uint8, queue: uint8) returns (code: HalCode)
      requires Valid()
      modifies qosDscpMap
      ensures dscp >= 64 || queue >= 8 ==> code == HalInval && Value() == old(Value())
      ensures dscp < 64 && queue < 8 ==>
        code == HalOk && Value() == old(Value()).(dscpMap := old(qosDscpMap[..])[dscp := queue])
    {
      if dscp >= 64 || queue >= 8 { return HalInval; }
      qosDscpMap[dscp] := queue;
      return HalOk;
    }
  }
}

/** The packets exchanged with the data plane, and the transmit queue as its users see it. */
module Punt {
  import opened Words

  const PUNT_RING_SLOTS := 16
  const PUNT_DATA_BYTES := 256
  const PUNT_REASON_ARP: uint8 := 0

  type Buffer = s: seq<uint8> | |s| == 256 witness seq(256, _ => 0)

  datatype PuntPkt = PuntPkt(ingPort: uint8, egPort: uint8, pktLen: uint16, vlanId: uint16, reason: uint8, data: Buffer)

  /** Frame bytes in a zeroed packet buffer. */
  function Padded(frame: seq<uint8>): Buffer
    requires |frame| <= PUNT_DATA_BYTES
  {
    frame + seq(PUNT_DATA_BYTES - |frame|, _ => 0)
  }

  /** Sending to the transmit ring, seen as a bounded queue; PuntRing shows that the ring behaves like this. */
  function Send(out: seq<PuntPkt>, pkt: PuntPkt): (HalCode, seq<PuntPkt>) {
    if |out| >= PUNT_RING_SLOTS then (HalFull, out) else (HalOk, out + [pkt])
  }
}

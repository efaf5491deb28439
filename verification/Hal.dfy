/** The table entries that cross the hardware abstraction layer (sw/hal/rv_p4_hal.h). */
module Hal {
  import opened Words

  const MAX_KEY_LEN: nat := 64

  type KeyBytes = b: seq<uint8> | |b| == 64 witness seq(64, _ => 0)
  type ParamBytes = b: seq<uint8> | |b| == 12 witness seq(12, _ => 0)

  /** A match key or mask: 64 bytes of which the first `len` are in use. */
  datatype TcamKey = TcamKey(bytes: KeyBytes, len: uint8)

  datatype TcamEntry = TcamEntry(
    key: TcamKey, mask: TcamKey, actionId: uint16, params: ParamBytes, stage: uint8, tableId: uint16)

  function NoParams(): ParamBytes { seq(12, _ => 0) }

  /** Four bytes as a 32-bit word, least significant first. */
  function LeWord(b0: uint8, b1: uint8, b2: uint8, b3: uint8): uint32 {
    var x: int, y: int, z: int, w: int := b0, b1, b2, b3;
    x + y * 0x100 + z * 0x1_0000 + w * 0x100_0000
  }

  function WordAt(b: seq<uint8>, i: nat): uint32
    requires 4 * i + 4 <= |b|
  {
    LeWord(b[4 * i], b[4 * i + 1], b[4 * i + 2], b[4 * i + 3])
  }

  /** The bytes in use, with zeros behind them. */
  function Used(k: TcamKey): KeyBytes {
    seq(64, i requires 0 <= i < 64 => UsedByte(k, i))
  }

  function UsedByte(k: TcamKey, i: nat): uint8
    requires i < 64
  {
    if i < k.len then k.bytes[i] else 0
  }

  /** 64 bytes as sixteen 32-bit words. */
  function Packed(b: KeyBytes): (ws: seq<uint32>)
    ensures |ws| == 16 && forall i :: 0 <= i < 16 ==> ws[i] == WordAt(b, i)
  {
    seq(16, i requires 0 <= i < 16 => WordAt(b, i))
  }
}

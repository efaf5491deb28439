/** The driver side of the punt rings: hal_punt_tx_send and hal_punt_rx_poll changing ring memory and counters in place.
    One ring is modelled; the transmit ring has the firmware as its producer, the receive ring as its consumer. */
module PuntDevice {
  import opened Words
  import opened Punt
  import opened PuntRing

  const RING_WORDS := PUNT_RING_SLOTS * SLOT_WORDS

  /** The packets between the two counters, oldest first. */
  ghost function Pending(mem: seq<uint32>, prod: uint32, cons: uint32): seq<Wire>
    requires |mem| == RING_WORDS
  {
    seq((prod - cons) % TWO_32, j requires 0 <= j => InSlot(mem, Counter(cons, j)))
  }

  ghost function SlotOf(mem: seq<uint32>, counter: uint32): seq<uint32>
    requires |mem| == RING_WORDS
  {
    mem[SLOT_WORDS * Slot(counter)..SLOT_WORDS * Slot(counter) + SLOT_WORDS]
  }

  ghost function InSlot(mem: seq<uint32>, counter: uint32): Wire
    requires |mem| == RING_WORDS
  {
    Decode(SlotOf(mem, counter))
  }

  class PuntPort {
    const mem: array<uint32>
    var prod: uint32
    var cons: uint32

    ghost predicate Valid()
      reads this
    {
      mem.Length == RING_WORDS && (prod - cons) % TWO_32 <= PUNT_RING_SLOTS
    }

    ghost function Queue(): seq<Wire>
      reads this, mem
      requires Valid()
    {
      Pending(mem[..], prod, cons)
    }

    constructor (start: uint32)
      ensures Valid() && fresh(mem) && Queue() == []
    {
      mem := new uint32[RING_WORDS](_ => 0);
      prod, cons := start, start;
    }

    /** Appends the packet to the queue, or turns it away exactly when sixteen are pending. */
    method TxSend(pkt: PuntPkt) returns (code: HalCode)
      requires Valid()
      modifies mem, this`prod
      ensures Valid() && code == (if |old(Queue())| == PUNT_RING_SLOTS then HalFull else HalOk)
      ensures Queue() == if code == HalOk then old(Queue()) + [Sent(pkt)] else old(Queue())
    {
      if (prod - cons) % TWO_32 >= PUNT_RING_SLOTS { return HalFull; }
      var base := prod % PUNT_RING_SLOTS * SLOT_WORDS;
      WriteSlot(base, pkt);
      SendAppends(old(mem[..]), mem[..], prod, cons, Sent(pkt));
      prod := (prod + 1) % TWO_32;
      return HalOk;
    }

    /** The descriptor words, then the data words. */
    method WriteSlot(base: nat, pkt: PuntPkt)
      requires mem.Length == RING_WORDS && base + SLOT_WORDS <= RING_WORDS
      modifies mem
      ensures var e := Encode(Sent(pkt)); mem[base..base + |e|] == e
      ensures mem[..base] == old(mem[..base]) && mem[base + SLOT_WORDS..] == old(mem[base + SLOT_WORDS..])
    {
      var dataLen: nat := if pkt.pktLen > 256 then 256 else pkt.pktLen;
      ghost var e := Encode(Sent(pkt));
      var ing: int, eg: int, vlan: int, reason: int := pkt.ingPort, pkt.egPort, pkt.vlanId, pkt.reason;
      mem[base] := ing + eg * 256 + dataLen * 0x1_0000;
      mem[base + 1] := vlan + reason * 0x1_0000;
      var words := (dataLen + 3) / 4;
      for i := 0 to words
        invariant forall k :: 0 <= k < 2 + i ==> mem[base + k] == e[k]
        invariant mem[..base] == old(mem[..base]) && mem[base + SLOT_WORDS..] == old(mem[base + SLOT_WORDS..])
      {
        mem[base + 2 + i] := GatherWord(pkt.data, dataLen, i);
      }
    }

    /** Takes the oldest packet off the queue: its fields, and its bytes over the front of the caller's buffer. */
    method RxPoll(data: array<uint8>) returns (r: Option<Wire>, pktLen: uint16)
      requires Valid() && data.Length == PUNT_DATA_BYTES
      modifies data, this`cons
      ensures Valid()
      ensures old(Queue()) == [] ==> r == None && Queue() == [] && data[..] == old(data[..])
      ensures old(Queue()) != [] ==>
        && r == Some(old(Queue())[0]) && Queue() == old(Queue())[1..]
        && data[..] == r.value.bytes + old(data[|r.value.bytes|..])
        && |r.value.bytes| == if pktLen > PUNT_DATA_BYTES then PUNT_DATA_BYTES else pktLen
    {
      if prod == cons { return None, 0; }
      var base := cons % PUNT_RING_SLOTS * SLOT_WORDS;
      var w0, w1 := mem[base], mem[base + 1];
      assert SlotOf(mem[..], cons)[0] == w0 && SlotOf(mem[..], cons)[1] == w1;
      pktLen := w0 / 0x1_0000;
      var n: nat := if pktLen > 256 then 256 else pktLen;
      ReadBytes(base, n, data);
      assert data[..n] == Decode(SlotOf(mem[..], cons)).bytes;
      PollTakes(mem[..], prod, cons);
      hide Decode, ByteOf, Unpacked, Counter;
      cons := (cons + 1) % TWO_32;
      r := Some(Wire(w0 % 256, w0 / 256 % 256, w1 % 0x1_0000, w1 / 0x1_0000 % 256, data[..n]));
    }

    /** The data words, unpacked over the front of the buffer. */
    method ReadBytes(base: nat, n: nat, data: array<uint8>)
      requires mem.Length == RING_WORDS && base + SLOT_WORDS <= RING_WORDS
      requires data.Length == PUNT_DATA_BYTES && n <= PUNT_DATA_BYTES
      modifies data
      ensures mem[..] == old(mem[..])
      ensures data[n..] == old(data[n..])
      ensures data[..n] == Unpacked(mem[base..base + SLOT_WORDS], n)
    {
      var words := (n + 3) / 4;
      ghost var ws := mem[base..base + SLOT_WORDS];
      for i := 0 to words
        invariant forall k :: 0 <= k < n && k < 4 * i ==> data[k] == ByteOf(ws[2 + k / 4], k % 4)
        invariant forall k :: n <= k < PUNT_DATA_BYTES ==> data[k] == old(data[k])
      {
        var d := mem[base + 2 + i];
        ScatterWord(data, n, i, d);
        assert forall k :: 4 * i <= k < 4 * i + 4 && k < n ==> k / 4 == i && k % 4 == k - 4 * i;
      }
    }
  }

  method GatherWord(data: Buffer, dataLen: nat, i: nat) returns (d: uint32)
    requires dataLen <= PUNT_DATA_BYTES && 4 * i < dataLen
    ensures d == DataWord(data[..dataLen], i)
  {
    var off := i * 4;
    var b0: int := data[off];
    var v := b0;
    if off + 1 < dataLen { var b: int := data[off + 1]; v := v + b * 256; }
    if off + 2 < dataLen { var b: int := data[off + 2]; v := v + b * 0x1_0000; }
    if off + 3 < dataLen { var b: int := data[off + 3]; v := v + b * 0x100_0000; }
    d := v;
  }

  method ScatterWord(data: array<uint8>, n: nat, i: nat, d: uint32)
    requires data.Length == PUNT_DATA_BYTES && 4 * i < n <= PUNT_DATA_BYTES
    modifies data
    ensures forall k :: 4 * i <= k < 4 * i + 4 && k < n ==> data[k] == ByteOf(d, k - 4 * i)
    ensures forall k :: 0 <= k < data.Length && (k < 4 * i || k >= 4 * i + 4 || k >= n) ==> data[k] == old(data[k])
  {
    var off := i * 4;
    data[off] := d % 256;
    if off + 1 < n { data[off + 1] := d / 256 % 256; }
    if off + 2 < n { data[off + 2] := d / 0x1_0000 % 256; }
    if off + 3 < n { data[off + 3] := d / 0x100_0000; }
  }

  lemma OtherSlotKept(m: seq<uint32>, m': seq<uint32>, k: nat, counter: uint32)
    requires |m| == |m'| == RING_WORDS && k < PUNT_RING_SLOTS && Slot(counter) != k
    requires m[..SLOT_WORDS * k] == m'[..SLOT_WORDS * k] && m[SLOT_WORDS * (k + 1)..] == m'[SLOT_WORDS * (k + 1)..]
    ensures SlotOf(m, counter) == SlotOf(m', counter)
  {
    var a := SLOT_WORDS * Slot(counter);
    forall i | a <= i < a + SLOT_WORDS ensures m[i] == m'[i] {
      if Slot(counter) < k {
        assert m[..SLOT_WORDS * k][i] == m'[..SLOT_WORDS * k][i];
      } else {
        var o := SLOT_WORDS * (k + 1);
        assert m[o..][i - o] == m'[o..][i - o];
      }
    }
  }

  lemma OthersKept(m: seq<uint32>, m': seq<uint32>, prod: uint32, cons: uint32, j: nat)
    requires |m| == |m'| == RING_WORDS && j < (prod - cons) % TWO_32 < PUNT_RING_SLOTS
    requires m[..SLOT_WORDS * Slot(prod)] == m'[..SLOT_WORDS * Slot(prod)]
    requires m[SLOT_WORDS * Slot(prod) + SLOT_WORDS..] == m'[SLOT_WORDS * Slot(prod) + SLOT_WORDS..]
    ensures InSlot(m', Counter(cons, j)) == InSlot(m, Counter(cons, j))
  {
    var n := (prod - cons) % TWO_32;
    ProdIsCounter(prod, cons);
    SlotsDiffer(cons, j, n);
    OtherSlotKept(m, m', Slot(prod), Counter(cons, j));
  }

  lemma ProdIsCounter(prod: uint32, cons: uint32)
    ensures Counter(cons, (prod - cons) % TWO_32) == prod
  {
  }

  lemma NewSlotHolds(m': seq<uint32>, prod: uint32, w: Wire)
    requires |m'| == RING_WORDS && Fits(w)
    requires var base := SLOT_WORDS * Slot(prod); m'[base..base + |Encode(w)|] == Encode(w)
    ensures InSlot(m', prod) == w
  {
    var base := SLOT_WORDS * Slot(prod);
    assert SlotOf(m', prod)[..|Encode(w)|] == m'[base..base + |Encode(w)|];
    DecodeEncode(w, SlotOf(m', prod));
  }

  lemma OneMore(prod: uint32, cons: uint32)
    requires (prod - cons) % TWO_32 < PUNT_RING_SLOTS
    ensures ((prod + 1) % TWO_32 - cons) % TWO_32 == (prod - cons) % TWO_32 + 1
  {
  }

  lemma SendAppends(m: seq<uint32>, m': seq<uint32>, prod: uint32, cons: uint32, w: Wire)
    requires |m| == |m'| == RING_WORDS && (prod - cons) % TWO_32 < PUNT_RING_SLOTS
    requires var base := SLOT_WORDS * Slot(prod);
      && m[..base] == m'[..base] && m[base + SLOT_WORDS..] == m'[base + SLOT_WORDS..]
      && Fits(w) && m'[base..base + |Encode(w)|] == Encode(w)
    ensures ((prod + 1) % TWO_32 - cons) % TWO_32 == (prod - cons) % TWO_32 + 1
    ensures Pending(m', (prod + 1) % TWO_32, cons) == Pending(m, prod, cons) + [w]
  {
    hide InSlot, Encode, Slot, Counter, Fits;
    var n := (prod - cons) % TWO_32;
    ProdIsCounter(prod, cons);
    OneMore(prod, cons);
    forall j | 0 <= j < n ensures InSlot(m', Counter(cons, j)) == InSlot(m, Counter(cons, j)) {
      OthersKept(m, m', prod, cons, j);
    }
    NewSlotHolds(m', prod, w);
  }

  lemma CounterSteps(cons: uint32, j: nat)
    ensures Counter(Counter(cons, 1), j) == Counter(cons, j + 1)
  {
  }

  lemma OneFewer(prod: uint32, cons: uint32)
    requires prod != cons
    ensures (prod - (cons + 1) % TWO_32) % TWO_32 == (prod - cons) % TWO_32 - 1
  {
  }

  lemma PollTakes(m: seq<uint32>, prod: uint32, cons: uint32)
    requires |m| == RING_WORDS && prod != cons
    ensures (prod - (cons + 1) % TWO_32) % TWO_32 == (prod - cons) % TWO_32 - 1
    ensures Pending(m, prod, cons) == [InSlot(m, cons)] + Pending(m, prod, (cons + 1) % TWO_32)
  {
    OneFewer(prod, cons);
    assert Counter(cons, 0) == cons && Counter(cons, 1) == (cons + 1) % TWO_32;
    forall j: nat ensures Counter(Counter(cons, 1), j) == Counter(cons, j + 1) { CounterSteps(cons, j); }
    hide InSlot, Counter;
  }
}

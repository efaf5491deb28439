/** The 16-slot punt rings shared by the firmware and the data plane (sw/hal/rv_p4_hal.c): free-running 32-bit
    producer and consumer counters, and slots written and read one 32-bit word at a time. */
module PuntRing {
  import opened Words
  import opened Punt

  const SLOT_WORDS := 80

  /** What travels through a slot: the descriptor fields and the packet bytes, at most 256 of them. */
  datatype Wire = Wire(ingPort: uint8, egPort: uint8, vlanId: uint16, reason: uint8, bytes: seq<uint8>)

  function DataLen(pktLen: uint16): nat { if pktLen > PUNT_DATA_BYTES then PUNT_DATA_BYTES else pktLen }

  function DataWords(len: nat): nat { (len + 3) / 4 }

  function Sent(pkt: PuntPkt): Wire {
    Wire(pkt.ingPort, pkt.egPort, pkt.vlanId, pkt.reason, pkt.data[..DataLen(pkt.pktLen)])
  }

  // ----- the words of a slot

  function Descriptor0(w: Wire): uint32
    requires |w.bytes| <= PUNT_DATA_BYTES
  {
    var ing: int, eg: int := w.ingPort, w.egPort;
    ing + eg * 256 + |w.bytes| * 0x1_0000
  }

  function Descriptor1(w: Wire): uint32 {
    var vlan: int, reason: int := w.vlanId, w.reason;
    vlan + reason * 0x1_0000
  }

  function ByteOr0(bytes: seq<uint8>, i: nat): uint8 { if i < |bytes| then bytes[i] else 0 }

  /** Four bytes, the first lowest; bytes past the end of the packet are left zero. */
  function DataWord(bytes: seq<uint8>, i: nat): uint32 {
    var a: int, b: int, c: int, d: int :=
      ByteOr0(bytes, 4 * i), ByteOr0(bytes, 4 * i + 1), ByteOr0(bytes, 4 * i + 2), ByteOr0(bytes, 4 * i + 3);
    a + b * 256 + c * 0x1_0000 + d * 0x100_0000
  }

  function Encode(w: Wire): (ws: seq<uint32>)
    requires |w.bytes| <= PUNT_DATA_BYTES
    ensures |ws| == 2 + DataWords(|w.bytes|) <= SLOT_WORDS
  {
    [Descriptor0(w), Descriptor1(w)] + seq(DataWords(|w.bytes|), i requires 0 <= i => DataWord(w.bytes, i))
  }

  function LenField(w0: uint32): uint16 { w0 / 0x1_0000 }

  /** How many words of a slot the reader takes, once it has read the first. */
  function Wanted(w0: uint32): (n: nat)
    ensures 2 <= n <= 66
  {
    2 + DataWords(DataLen(LenField(w0)))
  }

  function ByteOf(word: uint32, k: nat): uint8
    requires k < 4
  {
    if k == 0 then word % 256 else if k == 1 then word / 256 % 256
    else if k == 2 then word / 0x1_0000 % 256 else word / 0x100_0000
  }

  function Unpacked(ws: seq<uint32>, n: nat): (bytes: seq<uint8>)
    requires |ws| >= 2 + DataWords(n)
    ensures |bytes| == n
  {
    seq(n, i requires 0 <= i < n => ByteOf(ws[2 + i / 4], i % 4))
  }

  function Decode(ws: seq<uint32>): Wire
    requires |ws| >= 2 && |ws| >= Wanted(ws[0])
  {
    Wire(ws[0] % 256, ws[0] / 256 % 256, ws[1] % 0x1_0000, ws[1] / 0x1_0000 % 256,
         Unpacked(ws, DataLen(LenField(ws[0]))))
  }

  lemma BytesOfSum(a: uint8, b: uint8, c: uint8, d: uint8, w: uint32)
    requires var x: int, y: int, z: int, u: int := a, b, c, d; w == x + y * 256 + z * 0x1_0000 + u * 0x100_0000
    ensures ByteOf(w, 0) == a && ByteOf(w, 1) == b && ByteOf(w, 2) == c && ByteOf(w, 3) == d
  {
    var x: int, y: int, z: int, u: int := a, b, c, d;
    assert w / 256 == y + z * 256 + u * 0x1_0000;
    assert w / 0x1_0000 == z + u * 256;
    assert w / 0x100_0000 == u;
  }

  lemma DescriptorFields(w: Wire)
    requires |w.bytes| <= PUNT_DATA_BYTES
    ensures var w0, w1 := Descriptor0(w), Descriptor1(w);
      && w0 % 256 == w.ingPort && w0 / 256 % 256 == w.egPort && LenField(w0) == |w.bytes|
      && w1 % 0x1_0000 == w.vlanId && w1 / 0x1_0000 % 256 == w.reason
  {
    var ing: int, eg: int := w.ingPort, w.egPort;
    assert Descriptor0(w) / 256 == eg + |w.bytes| * 256;
  }

  lemma ByteBack(bytes: seq<uint8>, i: nat)
    requires i < |bytes|
    ensures ByteOf(DataWord(bytes, i / 4), i % 4) == bytes[i]
  {
    var j := i / 4;
    BytesOfSum(ByteOr0(bytes, 4 * j), ByteOr0(bytes, 4 * j + 1), ByteOr0(bytes, 4 * j + 2),
               ByteOr0(bytes, 4 * j + 3), DataWord(bytes, j));
  }

  /** Every packet that fits is returned field for field from the words of its slot. */
  lemma DecodeEncode(w: Wire, ws: seq<uint32>)
    requires |w.bytes| <= PUNT_DATA_BYTES && |ws| >= |Encode(w)| && ws[..|Encode(w)|] == Encode(w)
    ensures Wanted(ws[0]) == |Encode(w)| && Decode(ws) == w
  {
    var e := Encode(w);
    assert ws[0] == e[0] && ws[1] == e[1];
    DescriptorFields(w);
    hide Descriptor0, Descriptor1, ByteOf, DataWord;
    DecodedBytes(w, ws);
    assert Decode(ws).bytes == w.bytes;
  }

  /** The words of a slot for a packet to be sent, by position: port, port and length in the first, VLAN and reason in
      the second, and from the third on the bytes, four to a word, the first lowest; at most 256 of them. */
  lemma SlotLayout(pkt: PuntPkt)
    ensures var n: int := if pkt.pktLen <= 256 then pkt.pktLen else 256;
      var ing: int, eg: int, vlan: int, reason: int := pkt.ingPort, pkt.egPort, pkt.vlanId, pkt.reason;
      && |Sent(pkt).bytes| == n && |Encode(Sent(pkt))| == 2 + (n + 3) / 4
      && Encode(Sent(pkt))[0] == ing + 0x100 * eg + 0x1_0000 * n
      && Encode(Sent(pkt))[1] == vlan + 0x1_0000 * reason
  {
    hide DataWord;
  }

  lemma SlotByte(pkt: PuntPkt, i: nat)
    requires i < 256 && i < pkt.pktLen
    ensures |Sent(pkt).bytes| <= PUNT_DATA_BYTES && 2 + i / 4 < |Encode(Sent(pkt))|
    ensures var word, k := Encode(Sent(pkt))[2 + i / 4], i % 4;
      pkt.data[i] ==
        word / (if k == 0 then 1 else if k == 1 then 0x100 else if k == 2 then 0x1_0000 else 0x100_0000) % 256
  {
    ByteBack(Sent(pkt).bytes, i);
    hide DataWord, Descriptor0, Descriptor1;
  }

  /** The bytes of the last word past the end of the packet are zero. */
  lemma SlotPadding(pkt: PuntPkt, i: nat)
    requires |Sent(pkt).bytes| <= i < 4 * DataWords(|Sent(pkt).bytes|)
    ensures 2 + i / 4 < |Encode(Sent(pkt))| && ByteOf(Encode(Sent(pkt))[2 + i / 4], i % 4) == 0
  {
    var b, j := Sent(pkt).bytes, i / 4;
    BytesOfSum(ByteOr0(b, 4 * j), ByteOr0(b, 4 * j + 1), ByteOr0(b, 4 * j + 2), ByteOr0(b, 4 * j + 3), DataWord(b, j));
    hide DataWord, ByteOf, Descriptor0, Descriptor1;
  }

  lemma DecodedBytes(w: Wire, ws: seq<uint32>)
    requires |w.bytes| <= PUNT_DATA_BYTES && |ws| >= |Encode(w)| && ws[..|Encode(w)|] == Encode(w)
    requires Wanted(ws[0]) == |Encode(w)| && LenField(ws[0]) == |w.bytes|
    ensures |Decode(ws).bytes| == |w.bytes| && forall i :: 0 <= i < |w.bytes| ==> Decode(ws).bytes[i] == w.bytes[i]
  {
    hide Descriptor0, Descriptor1, ByteOf, DataWord;
    var e := Encode(w);
    forall i | 0 <= i < |w.bytes| ensures Decode(ws).bytes[i] == w.bytes[i] {
      assert ws[2 + i / 4] == e[2 + i / 4];
      ByteBack(w.bytes, i);
    }
  }

  // ----- one ring under every interleaving of its producer and its consumer

  /** The producer is hal_punt_tx_send between two of its accesses to the ring; `done` words of the slot are written. */
  datatype Producer = Idle | ReadProd(pkt: PuntPkt, prod: uint32) | Writing(pkt: PuntPkt, prod: uint32, done: nat)

  /** The consumer is hal_punt_rx_poll between two of its accesses; `words` have been read from the slot. */
  datatype Consumer = Quiet | SawProd(prod: uint32) | Reading(cons: uint32, words: seq<uint32>)

  type Slots = m: seq<seq<uint32>> | |m| == 16 && forall k :: 0 <= k < 16 ==> |m[k]| == 80
    witness seq(16, _ => seq(80, _ => 0))

  /** The shared words, both parties, and the history: what was published and what was returned, in order. */
  datatype Ring = Ring(prod: uint32, cons: uint32, slots: Slots, producer: Producer, consumer: Consumer,
                       published: seq<Wire>, returned: seq<Wire>)

  /** One access by one party; Send hands an idle producer its next packet. */
  datatype Action = Send(pkt: PuntPkt) | ProducerStep | ConsumerStep

  function Slot(counter: uint32): nat { counter % PUNT_RING_SLOTS }

  function Act(r: Ring, a: Action): Ring {
    match a
    case Send(pkt) => if r.producer.Idle? then r.(producer := ReadProd(pkt, r.prod)) else r
    case ProducerStep => ProducerAct(r)
    case ConsumerStep => ConsumerAct(r)
  }

  function ProducerAct(r: Ring): Ring {
    match r.producer
    case Idle => r
    case ReadProd(pkt, prod) =>
      if (prod - r.cons) % TWO_32 >= PUNT_RING_SLOTS then r.(producer := Idle)
      else r.(producer := Writing(pkt, prod, 0))
    case Writing(pkt, prod, done) =>
      var ws := Encode(Sent(pkt));
      if done < |ws| then
        r.(slots := r.slots[Slot(prod) := r.slots[Slot(prod)][done := ws[done]]],
          producer := Writing(pkt, prod, done + 1))
      else r.(prod := (prod + 1) % TWO_32, producer := Idle, published := r.published + [Sent(pkt)])
  }

  function ConsumerAct(r: Ring): Ring {
    match r.consumer
    case Quiet => r.(consumer := SawProd(r.prod))
    case SawProd(prod) => if prod == r.cons then r.(consumer := Quiet) else r.(consumer := Reading(r.cons, []))
    case Reading(cons, ws) =>
      if |ws| < 2 || |ws| < Wanted(ws[0]) then
        r.(consumer := Reading(cons, ws + [r.slots[Slot(cons)][|ws|]]))
      else r.(cons := (cons + 1) % TWO_32, consumer := Quiet, returned := r.returned + [Decode(ws)])
  }

  function Run(r: Ring, actions: seq<Action>): Ring {
    if actions == [] then r else Act(Run(r, actions[..|actions| - 1]), actions[|actions| - 1])
  }

  /** An empty ring, its counters anywhere in their 32-bit range. */
  function Empty(start: uint32, slots: Slots): Ring { Ring(start, start, slots, Idle, Quiet, [], []) }

  // ----- the invariant

  function Counter(start: uint32, n: nat): uint32 { (start + n) % TWO_32 }

  lemma CounterLaws(start: uint32, m: nat, n: nat)
    requires m <= n <= m + PUNT_RING_SLOTS
    ensures (Counter(start, n) - Counter(start, m)) % TWO_32 == n - m
    ensures Slot(Counter(start, n)) == (start + n) % PUNT_RING_SLOTS
    ensures (Counter(start, n) + 1) % TWO_32 == Counter(start, n + 1)
  {
    var a, b := (start + n) / TWO_32, (start + m) / TWO_32;
    assert Counter(start, n) - Counter(start, m) == n - m - TWO_32 * (a - b);
    SlotOfMod(start + n);
  }

  lemma SlotOfMod(x: nat)
    ensures x % TWO_32 % PUNT_RING_SLOTS == x % PUNT_RING_SLOTS
  {
  }

  /** Sixteen consecutive counter values address sixteen different slots. */
  lemma SlotsDiffer(start: uint32, m: nat, n: nat)
    requires m < n < m + PUNT_RING_SLOTS
    ensures Slot(Counter(start, m)) != Slot(Counter(start, n))
  {
    CounterLaws(start, m, m);
    CounterLaws(start, n, n);
    ResiduesDiffer(start + m, n - m);
  }

  lemma ResiduesDiffer(x: nat, d: nat)
    requires 0 < d < PUNT_RING_SLOTS
    ensures x % PUNT_RING_SLOTS != (x + d) % PUNT_RING_SLOTS
  {
  }

  predicate Fits(w: Wire) { |w.bytes| <= PUNT_DATA_BYTES }

  ghost predicate Holds(ws: seq<uint32>, w: Wire) {
    Fits(w) && |ws| == SLOT_WORDS && ws[..|Encode(w)|] == Encode(w)
  }

  ghost predicate Inv(r: Ring, start: uint32) {
    && |r.returned| <= |r.published| <= |r.returned| + PUNT_RING_SLOTS
    && r.prod == Counter(start, |r.published|) && r.cons == Counter(start, |r.returned|)
    && r.returned == r.published[..|r.returned|]
    && InFlight(r.slots, r.published, |r.returned|, start)
    && ProducerInv(r)
    && ConsumerInv(r, start)
  }

  /** Every published packet from number `lo` on is in its slot. */
  ghost predicate InFlight(slots: Slots, published: seq<Wire>, lo: nat, start: uint32) {
    forall j :: lo <= j < |published| ==> Holds(slots[Slot(Counter(start, j))], published[j])
  }

  ghost predicate ProducerInv(r: Ring) {
    match r.producer
    case Idle => true
    case ReadProd(_, prod) => prod == r.prod
    case Writing(pkt, prod, done) =>
      && prod == r.prod && |r.published| < |r.returned| + PUNT_RING_SLOTS
      && done <= |Encode(Sent(pkt))| && r.slots[Slot(prod)][..done] == Encode(Sent(pkt))[..done]
  }

  ghost predicate ConsumerInv(r: Ring, start: uint32) {
    match r.consumer
    case Quiet => true
    case SawProd(prod) => exists k :: |r.returned| <= k <= |r.published| && prod == Counter(start, k)
    case Reading(cons, ws) =>
      && cons == r.cons && |r.returned| < |r.published|
      && var e := r.published[|r.returned|]; Fits(e) && |ws| <= |Encode(e)| && ws == Encode(e)[..|ws|]
  }

  lemma SendKeepsInv(r: Ring, start: uint32, pkt: PuntPkt)
    requires Inv(r, start)
    ensures Inv(Act(r, Send(pkt)), start)
  {
  }

  lemma ProducerKeepsInv(r: Ring, start: uint32)
    requires Inv(r, start)
    ensures Inv(ProducerAct(r), start)
  {
    match r.producer
    case Idle =>
    case ReadProd(pkt, prod) => CounterLaws(start, |r.returned|, |r.published|);
    case Writing(pkt, prod, done) =>
      if done < |Encode(Sent(pkt))| { WriteKeepsInv(r, start); } else { PublishKeepsInv(r, start); }
  }

  /** No unread slot is overwritten: the slot being filled differs from every published one not yet returned. */
  lemma NoUnreadSlotOverwritten(r: Ring, start: uint32, j: nat)
    requires Inv(r, start) && r.producer.Writing?
    requires |r.returned| <= j < |r.published|
    ensures Slot(r.producer.prod) != Slot(Counter(start, j))
  {
    SlotsDiffer(start, j, |r.published|);
  }

  lemma WriteKeepsInv(r: Ring, start: uint32)
    requires Inv(r, start) && r.producer.Writing? && r.producer.done < |Encode(Sent(r.producer.pkt))|
    ensures Inv(ProducerAct(r), start)
  {
    var u := ProducerAct(r);
    var k, done, ws := Slot(r.producer.prod), r.producer.done, Encode(Sent(r.producer.pkt));
    forall j | |r.returned| <= j < |r.published|
      ensures Holds(u.slots[Slot(Counter(start, j))], r.published[j])
    {
      NoUnreadSlotOverwritten(r, start, j);
    }
    assert u.slots[k][..done + 1] == u.slots[k][..done] + [ws[done]];
    assert u.slots[k][..done] == r.slots[k][..done];
    assert ws[..done + 1] == ws[..done] + [ws[done]];
  }

  lemma PublishKeepsInv(r: Ring, start: uint32)
    requires Inv(r, start) && r.producer.Writing? && r.producer.done == |Encode(Sent(r.producer.pkt))|
    ensures Inv(ProducerAct(r), start)
  {
    var u := ProducerAct(r);
    var e := Sent(r.producer.pkt);
    CounterLaws(start, |r.published|, |r.published|);
    assert Encode(e)[..|Encode(e)|] == Encode(e);
    forall j | |u.returned| <= j < |u.published| ensures Holds(u.slots[Slot(Counter(start, j))], u.published[j]) {
      if j == |r.published| { assert u.published[j] == e; } else { assert u.published[j] == r.published[j]; }
    }
    assert u.published[..|r.returned|] == r.published[..|r.returned|];
  }

  /** No slot is read before it is published: a reader at work has a published packet that is not yet returned. */
  lemma NoSlotReadEarly(r: Ring, start: uint32)
    requires Inv(r, start) && r.consumer.SawProd? && r.consumer.prod != r.cons
    ensures |r.returned| < |r.published|
  {
  }

  lemma WordsSoFar(r: Ring, start: uint32)
    requires Inv(r, start) && r.consumer.Reading?
    ensures var w, ws := Encode(r.published[|r.returned|]), r.consumer.words;
      && ws == w[..|ws|] && |ws| <= |w| == Wanted(w[0]) && Decode(w) == r.published[|r.returned|]
      && |r.slots[Slot(r.cons)]| == SLOT_WORDS && r.slots[Slot(r.cons)][..|w|] == w
  {
    var e := r.published[|r.returned|];
    assert Holds(r.slots[Slot(Counter(start, |r.returned|))], e);
    assert Encode(e)[..|Encode(e)|] == Encode(e);
    DecodeEncode(e, Encode(e));
  }

  lemma ReadKeepsInv(r: Ring, start: uint32)
    requires Inv(r, start) && r.consumer.Reading?
    ensures Inv(ConsumerAct(r), start)
  {
    WordsSoFar(r, start);
    if |r.consumer.words| < |Encode(r.published[|r.returned|])| {
      ReadWordKeepsInv(r, start);
    } else {
      ReturnIsDecoded(r, start);
      ReturnedKeepsInv(r, start);
    }
  }

  lemma OnlyConsumerMoves(r: Ring, start: uint32, c: Consumer)
    requires Inv(r, start) && ConsumerInv(r.(consumer := c), start)
    ensures Inv(r.(consumer := c), start)
  {
    hide ConsumerInv, InFlight;
  }

  lemma OneMoreWord(w: seq<uint32>, ws: seq<uint32>, slot: seq<uint32>)
    requires |ws| < |w| <= |slot| && ws == w[..|ws|] && slot[..|w|] == w
    ensures ws + [slot[|ws|]] == w[..|ws| + 1]
  {
    assert slot[..|w|][|ws|] == w[|ws|];
  }

  lemma ReadWordKeepsInv(r: Ring, start: uint32)
    requires Inv(r, start) && r.consumer.Reading?
    requires |r.consumer.words| < |Encode(r.published[|r.returned|])|
    ensures Inv(ConsumerAct(r), start)
  {
    var w, ws := Encode(r.published[|r.returned|]), r.consumer.words;
    WordsSoFar(r, start);
    hide Encode, Decode, Wanted, Holds, ProducerInv, InFlight, Counter;
    OneMoreWord(w, ws, r.slots[Slot(r.cons)]);
    assert |ws| >= 1 ==> ws[0] == w[0];
    var c := Reading(r.cons, ws + [r.slots[Slot(r.cons)][|ws|]]);
    assert ConsumerAct(r) == r.(consumer := c);
    OnlyConsumerMoves(r, start, c);
  }

  function Returned(r: Ring, start: uint32): Ring
    requires |r.returned| < |r.published|
  {
    r.(cons := Counter(start, |r.returned| + 1), consumer := Quiet,
      returned := r.returned + [r.published[|r.returned|]])
  }

  lemma ReturnIsDecoded(r: Ring, start: uint32)
    requires Inv(r, start) && r.consumer.Reading?
    requires |r.consumer.words| == |Encode(r.published[|r.returned|])|
    ensures ConsumerAct(r) == Returned(r, start)
  {
    var e, ws := r.published[|r.returned|], r.consumer.words;
    WordsSoFar(r, start);
    assert ws == Encode(e);
    CounterLaws(start, |r.returned|, |r.returned|);
    hide Encode, Decode, Wanted, Holds, Slot, Counter, InFlight, Fits, ProducerInv;
  }

  lemma ReturnedKeepsInv(r: Ring, start: uint32)
    requires Inv(r, start) && |r.returned| < |r.published|
    ensures Inv(Returned(r, start), start)
  {
    assert InFlight(r.slots, r.published, |r.returned| + 1, start);
    hide Encode, Holds, Slot, Counter, InFlight, Fits;
    assert r.published[..|r.returned| + 1] == r.published[..|r.returned|] + [r.published[|r.returned|]];
  }

  lemma ConsumerKeepsInv(r: Ring, start: uint32)
    requires Inv(r, start)
    ensures Inv(ConsumerAct(r), start)
  {
    match r.consumer
    case Quiet =>
    case SawProd(prod) => if prod != r.cons { NoSlotReadEarly(r, start); }
    case Reading(cons, ws) => ReadKeepsInv(r, start);
  }

  /** Under every interleaving, wherever the counters start: the packets returned are the first of those published, in
      order and field for field, and never more than sixteen are in flight. */
  lemma {:induction false} EveryRunIsFifo(start: uint32, slots: Slots, actions: seq<Action>)
    ensures var r := Run(Empty(start, slots), actions);
      && Inv(r, start)
      && r.returned <= r.published && |r.published| <= |r.returned| + PUNT_RING_SLOTS
  {
    if actions != [] {
      EveryRunIsFifo(start, slots, actions[..|actions| - 1]);
      var r := Run(Empty(start, slots), actions[..|actions| - 1]);
      match actions[|actions| - 1]
      case Send(pkt) => SendKeepsInv(r, start, pkt);
      case ProducerStep => ProducerKeepsInv(r, start);
      case ConsumerStep => ConsumerKeepsInv(r, start);
    }
  }

  /** The producer is turned away exactly when sixteen packets are in flight as it reads the consumer counter. */
  lemma FullIffSixteen(r: Ring, start: uint32)
    requires Inv(r, start) && r.producer.ReadProd?
    ensures ProducerAct(r).producer.Idle? <==> |r.published| == |r.returned| + PUNT_RING_SLOTS
  {
    CounterLaws(start, |r.returned|, |r.published|);
  }

  /** The consumer finds the ring empty exactly when it was empty as it read the producer counter. */
  lemma EmptyIffNothingInFlight(r: Ring, start: uint32)
    requires Inv(r, start) && r.consumer.Quiet?
    ensures ConsumerAct(ConsumerAct(r)).consumer.Quiet? <==> |r.published| == |r.returned|
  {
    CounterLaws(start, |r.returned|, |r.published|);
  }

  // ----- nothing gets stuck: every packet accepted is published, and every packet published is returned

  function ProducerSteps(actions: seq<Action>): nat {
    if actions == [] then 0
    else ProducerSteps(actions[..|actions| - 1]) + if actions[|actions| - 1].ProducerStep? then 1 else 0
  }

  function ConsumerSteps(actions: seq<Action>): nat {
    if actions == [] then 0
    else ConsumerSteps(actions[..|actions| - 1]) + if actions[|actions| - 1].ConsumerStep? then 1 else 0
  }

  lemma ActKeepsInv(r: Ring, start: uint32, a: Action)
    requires Inv(r, start)
    ensures Inv(Act(r, a), start)
  {
    hide Inv;
    match a
    case Send(pkt) => SendKeepsInv(r, start, pkt);
    case ProducerStep => ProducerKeepsInv(r, start);
    case ConsumerStep => ConsumerKeepsInv(r, start);
  }

  /** How far the producer has come with a packet after a number of its steps. */
  ghost predicate SendingAt(r: Ring, pkt: PuntPkt, prod: uint32, before: seq<Wire>, steps: nat) {
    var n := |Encode(Sent(pkt))|;
    if steps == 0 then r.producer == ReadProd(pkt, prod) && r.published == before
    else if steps <= n + 1 then r.producer == Writing(pkt, prod, steps - 1) && r.published == before
    else r.published == before + [Sent(pkt)]
  }

  /** A packet handed to an idle producer while fewer than sixteen are in flight is published after one step for the
      consumer counter, one for each word and one for the producer counter, whatever the consumer does meanwhile. */
  lemma {:induction false} SendArrives(r: Ring, start: uint32, pkt: PuntPkt, actions: seq<Action>)
    requires Inv(r, start) && r.producer.Idle? && |r.published| < |r.returned| + PUNT_RING_SLOTS
    requires ProducerSteps(actions) <= |Encode(Sent(pkt))| + 2
    ensures var q := Run(Act(r, Send(pkt)), actions);
      && Inv(q, start) && |q.returned| >= |r.returned|
      && SendingAt(q, pkt, r.prod, r.published, ProducerSteps(actions))
  {
    if actions == [] {
      SendKeepsInv(r, start, pkt);
    } else {
      var most, a := actions[..|actions| - 1], actions[|actions| - 1];
      SendArrives(r, start, pkt, most);
      var q := Run(Act(r, Send(pkt)), most);
      ActKeepsInv(q, start, a);
      hide Inv, Encode, Decode, Wanted, SendingAt, Act;
      if a.ProducerStep? {
        OneSendStep(q, start, pkt, r.prod, r.published, ProducerSteps(most));
      } else {
        OtherSideOnly(q, pkt, r.prod, r.published, ProducerSteps(most), a);
      }
    }
  }

  lemma OneSendStep(q: Ring, start: uint32, pkt: PuntPkt, prod: uint32, before: seq<Wire>, steps: nat)
    requires Inv(q, start) && SendingAt(q, pkt, prod, before, steps) && steps <= |Encode(Sent(pkt))| + 1
    requires |before| < |q.returned| + PUNT_RING_SLOTS
    ensures var t := Act(q, ProducerStep); SendingAt(t, pkt, prod, before, steps + 1) && t.returned == q.returned
  {
    if steps == 0 { FullIffSixteen(q, start); }
    hide Encode, InFlight, ConsumerInv, Counter;
  }

  lemma OtherSideOnly(q: Ring, pkt: PuntPkt, prod: uint32, before: seq<Wire>, steps: nat, a: Action)
    requires SendingAt(q, pkt, prod, before, steps) && !a.ProducerStep?
    ensures var t := Act(q, a); SendingAt(t, pkt, prod, before, steps) && |t.returned| >= |q.returned|
  {
    hide Encode, Decode, Wanted;
  }

  /** How far the consumer has come with the next packet after a number of its steps. */
  ghost predicate TakingAt(r: Ring, first: Ring, steps: nat)
    requires |first.returned| < |first.published|
  {
    var e := first.published[..|first.returned| + 1];
    var n := if Fits(e[|first.returned|]) then |Encode(e[|first.returned|])| else 0;
    && e <= r.published
    && if steps == 0 then r.consumer == Quiet && r.returned == first.returned
       else if steps == 1 then r.returned == first.returned && r.consumer.SawProd? && r.consumer.prod != r.cons
       else if steps <= n + 2 then
         r.returned == first.returned && r.consumer.Reading? && |r.consumer.words| == steps - 2
       else r.returned == e
  }

  /** A packet in flight is returned after one step for each counter read, one for each word and one for the consumer
      counter, whatever the producer does meanwhile. */
  lemma {:induction false} TakeArrives(r: Ring, start: uint32, actions: seq<Action>)
    requires Inv(r, start) && r.consumer.Quiet? && |r.returned| < |r.published|
    requires Fits(r.published[|r.returned|])
    requires ConsumerSteps(actions) <= |Encode(r.published[|r.returned|])| + 3
    ensures var q := Run(r, actions); Inv(q, start) && TakingAt(q, r, ConsumerSteps(actions))
  {
    if actions != [] {
      var most, a := actions[..|actions| - 1], actions[|actions| - 1];
      TakeArrives(r, start, most);
      var q := Run(r, most);
      ActKeepsInv(q, start, a);
      hide Inv, Encode, Decode, Wanted, TakingAt, Act;
      if a.ConsumerStep? {
        OneTakeStep(q, r, start, ConsumerSteps(most));
      } else {
        ProducerSideOnly(q, r, a, ConsumerSteps(most));
      }
    }
  }

  lemma ProducerSideOnly(q: Ring, first: Ring, a: Action, steps: nat)
    requires |first.returned| < |first.published| && TakingAt(q, first, steps) && !a.ConsumerStep?
    ensures TakingAt(Act(q, a), first, steps)
  {
    hide Encode;
  }

  lemma OneTakeStep(q: Ring, first: Ring, start: uint32, steps: nat)
    requires Inv(q, start) && |first.returned| < |first.published| && Fits(first.published[|first.returned|])
    requires TakingAt(q, first, steps) && steps <= |Encode(first.published[|first.returned|])| + 2
    ensures TakingAt(Act(q, ConsumerStep), first, steps + 1)
  {
    var e := first.published[|first.returned|];
    assert first.published[..|first.returned| + 1][|first.returned|] == e;
    if steps < 2 {
      FirstTakeSteps(q, first, start, steps);
    } else {
      WordTakeStep(q, first, start, steps, e);
    }
    hide Encode, Inv, TakingAt, Act;
  }

  lemma FirstTakeSteps(q: Ring, first: Ring, start: uint32, steps: nat)
    requires Inv(q, start) && |first.returned| < |first.published| && TakingAt(q, first, steps) && steps < 2
    requires Fits(first.published[|first.returned|])
    ensures TakingAt(Act(q, ConsumerStep), first, steps + 1)
  {
    hide Encode, Decode, InFlight, ProducerInv, Counter, Fits;
    CounterLaws(start, |q.returned|, |q.published|);
  }

  lemma WordTakeStep(q: Ring, first: Ring, start: uint32, steps: nat, e: Wire)
    requires Inv(q, start) && |first.returned| < |first.published| && e == first.published[|first.returned|]
    requires Fits(e) && TakingAt(q, first, steps) && 2 <= steps <= |Encode(e)| + 2
    ensures TakingAt(Act(q, ConsumerStep), first, steps + 1)
  {
    hide Encode, Decode, InFlight, ProducerInv, Counter;
    assert first.published[..|first.returned| + 1][|first.returned|] == e;
    assert q.returned == first.returned && q.published[|q.returned|] == e;
    if steps == |Encode(e)| + 2 {
      ReturnIsDecoded(q, start);
      assert first.published[..|first.returned| + 1] == q.returned + [e];
    } else {
      WordsWanted(q, start, e);
    }
  }

  lemma WordsWanted(q: Ring, start: uint32, e: Wire)
    requires Inv(q, start) && q.consumer.Reading? && |q.returned| < |q.published| && e == q.published[|q.returned|]
    requires Fits(e) && |q.consumer.words| < |Encode(e)|
    ensures var ws := q.consumer.words; |ws| < 2 || |ws| < Wanted(ws[0])
  {
    var ws := q.consumer.words;
    if |ws| >= 2 {
      var padded := Encode(e);
      DecodeEncode(e, padded);
      assert ws[0] == padded[0];
    }
    hide Decode;
  }
}

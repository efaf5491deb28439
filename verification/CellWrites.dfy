/** The parser (rtl/parser/p4_parser.sv) writing frames into the packet buffer (rtl/pkt_buffer/pkt_buffer.sv): both
    clocked together, the parser's requests and writes wired to the free list and the cell memory. */
module CellWrites {
  import opened Words
  import opened FreeList
  import opened P4Parser

  type Data = d: seq<P4Parser.Cell> | |d| == 1048576 witness Blank()

  function Blank(): seq<P4Parser.Cell> { seq<P4Parser.Cell>(1048576, _ => NoBytes()) }

  function NoBytes(): P4Parser.Cell { seq(64, _ => 0) }

  datatype Buffered = Buffered(parser: Machine, free: State, data: Data)

  /** What arrives at a clock, and the cell the traffic manager frees. */
  datatype Arrival = Arrival(rx: Input, freed: Option<FreeList.Cell>)

  /** The parser sees the cell that the free list offers. */
  function Seen(b: Buffered, a: Arrival): Input { a.rx.(allocId := Offered(b.free)) }

  function Asked(b: Buffered, a: Arrival): Inputs { Inputs(AllocReq(b.parser, Seen(b, a)), a.freed) }

  function Tick(m: Memory, b: Buffered, a: Arrival): Buffered {
    Buffered(
      Edge(m, b.parser, Seen(b, a)), Clock(b.free, Asked(b, a)),
      if Writes(b.parser, Seen(b, a)) then b.data[Offered(b.free) := a.rx.data] else b.data)
  }

  /** The last cell of a frame that has more than one. */
  predicate EndsLongFrame(b: Buffered, a: Arrival) { b.parser.ps == PsPayload && a.rx.valid && a.rx.eof }

  /** With nothing free the cell on offer is in use, and a write lands on it all the same: the parser does not look at
      whether there is a cell to hand out. */
  lemma EmptyListOverwrites(b: Buffered, taken: set<FreeList.Cell>, a: Arrival)
    requires Inv(b.free, taken) && b.free.count == 0
    ensures Offered(b.free) in taken && !Grants(b.free, Asked(b, a))
  {
    assert Queue(b.free) == [];
  }

  /** A cell that is written was free and is handed out by the same clock, and so kept from other frames, if and only if
      there is a free cell and it is not the last one of a frame longer than one cell: none is asked for then. */
  lemma WrittenIsHandedOutIff(b: Buffered, taken: set<FreeList.Cell>, a: Arrival)
    requires Inv(b.free, taken) && (a.freed.Some? ==> a.freed.value in taken) && Writes(b.parser, Seen(b, a))
    ensures (Offered(b.free) !in taken && Offered(b.free) in Taken(b.free, taken, Asked(b, a))) <==>
      b.free.count > 0 && !EndsLongFrame(b, a)
  {
    if b.free.count > 0 { OfferedCellIsFree(b.free, taken); } else { EmptyListOverwrites(b, taken, a); }
    hide Inv;
  }

  /** The clocks before the next frame starts; only cells in use are freed. */
  ghost predicate Waits(m: Memory, b: Buffered, taken: set<FreeList.Cell>, xs: seq<Arrival>)
    decreases |xs|
  {
    xs == [] ||
      (&& (b.parser.ps == PsIdle || b.parser.ps == PsEmit) && !AllocReq(b.parser, Seen(b, xs[0]))
       && (xs[0].freed.Some? ==> xs[0].freed.value in taken)
       && Waits(m, Tick(m, b, xs[0]), Taken(b.free, taken, Asked(b, xs[0])), xs[1..]))
  }

  function Ticks(m: Memory, b: Buffered, xs: seq<Arrival>): Buffered
    decreases |xs|
  {
    if xs == [] then b else Ticks(m, Tick(m, b, xs[0]), xs[1..])
  }

  lemma OfferKept(s: State, taken: set<FreeList.Cell>, x: Inputs)
    requires Inv(s, taken) && s.count > 0 && !x.allocReq && (x.free.Some? ==> x.free.value in taken)
    ensures var t := Clock(s, x); Inv(t, Taken(s, taken, x)) && t.count > 0 && Offered(t) == Offered(s)
  {
    ClockKeepsInvIff(s, taken, x);
    CountIsExact(s, taken);
    if x.free.Some? { HeadIsNotTail(s); }
    hide Inv, Queue, Distinct;
  }

  lemma HeadIsNotTail(s: State)
    requires 0 < s.count < NUM_CELLS && s.tail == Place(s.head, s.count)
    ensures s.tail != s.head
  {
    WrapDiffers(s.head, 0, s.count);
  }

  /** While the next frame has not started the same cell stays on offer, whatever is freed. */
  lemma {:induction false} OfferStays(m: Memory, b: Buffered, taken: set<FreeList.Cell>, xs: seq<Arrival>)
    requires Inv(b.free, taken) && b.free.count > 0 && Waits(m, b, taken, xs)
    ensures Offered(Ticks(m, b, xs).free) == Offered(b.free)
    decreases |xs|
  {
    hide Inv, Edge, Clock;
    if xs != [] {
      OfferKept(b.free, taken, Asked(b, xs[0]));
      OfferStays(m, Tick(m, b, xs[0]), Taken(b.free, taken, Asked(b, xs[0])), xs[1..]);
    }
  }

  /** So the last cell of a frame longer than one cell is lost or does harm: with a free cell in the list it is
      overwritten by the first cell of the next frame, and with none it overwrites a cell in use. */
  lemma LastCellIsOverwritten(m: Memory, b: Buffered, taken: set<FreeList.Cell>,
                              a: Arrival, xs: seq<Arrival>, z: Arrival)
    requires Inv(b.free, taken) && (a.freed.Some? ==> a.freed.value in taken) && EndsLongFrame(b, a)
    requires Waits(m, Tick(m, b, a), Taken(b.free, taken, Asked(b, a)), xs)
    requires Ticks(m, Tick(m, b, a), xs).parser.ps == PsIdle && z.rx.valid && z.rx.sof
    ensures Tick(m, b, a).data[Offered(b.free)] == a.rx.data
    ensures if b.free.count > 0 then Tick(m, Ticks(m, Tick(m, b, a), xs), z).data[Offered(b.free)] == z.rx.data
      else Offered(b.free) in taken
  {
    if b.free.count > 0 {
      OfferKept(b.free, taken, Asked(b, a));
      OfferStays(m, Tick(m, b, a), Taken(b.free, taken, Asked(b, a)), xs);
    } else {
      EmptyListOverwrites(b, taken, a);
    }
    hide Inv, Edge, Clock, Waits, Ticks;
  }
}

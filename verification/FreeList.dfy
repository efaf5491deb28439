/** The free-cell FIFO of the packet buffer (rtl/pkt_buffer/pkt_buffer.sv): a ring of cell numbers with a head,
    a tail and a count, all updated on the clock edge. */
module FreeList {
  import opened Words

  const NUM_CELLS: nat := 1048576
  const COUNT_RANGE := 2097152 // the count register has 21 bits

  type Cell = c: int | 0 <= c < 1048576
  type Cells = l: seq<Cell> | |l| == 1048576 witness seq(1048576, _ => 0)

  datatype State = State(list: Cells, head: Cell, tail: Cell, count: nat)

  /** What the clock samples: an allocation request, and a cell to free if there is one. */
  datatype Inputs = Inputs(allocReq: bool, free: Option<Cell>)

  predicate Grants(s: State, x: Inputs) { x.allocReq && s.count > 0 }

  function Offered(s: State): Cell { s.list[s.head] }

  /** One clock edge. Both branches assign the count from its old value, and the later one, the free, wins. */
  function Clock(s: State, x: Inputs): State {
    var head := if Grants(s, x) then (s.head + 1) % NUM_CELLS else s.head;
    match x.free
    case None => s.(head := head, count := if Grants(s, x) then s.count - 1 else s.count)
    case Some(id) => State(s.list[s.tail := id], head, (s.tail + 1) % NUM_CELLS, (s.count + 1) % COUNT_RANGE)
  }

  /** The list a reset leaves: every cell, in order. */
  function Identity(): Cells { seq(NUM_CELLS, i requires 0 <= i < NUM_CELLS => i) }

  function Initial(): State { State(Identity(), 0, 0, NUM_CELLS) }

  class PktBuffer {
    const freeList: array<Cell>
    var head: Cell
    var tail: Cell
    var count: nat

    ghost predicate Valid() { freeList.Length == NUM_CELLS }

    ghost function Value(): State
      reads this, freeList
      requires Valid()
    {
      State(freeList[..], head, tail, count)
    }

    constructor ()
      ensures Valid() && fresh(freeList) && Value() == Initial()
    {
      freeList := new Cell[NUM_CELLS](i requires 0 <= i < NUM_CELLS => i);
      head, tail, count := 0, 0, NUM_CELLS;
    }

    /** The cell offered to an allocation request. */
    function AllocId(): Cell
      reads this, freeList
      requires Valid()
    {
      freeList[head]
    }

    /** One clock. It hands out the cell offered before it, if it grants the request. */
    method ClockEdge(x: Inputs) returns (granted: Option<Cell>)
      requires Valid()
      modifies this, freeList
      ensures Value() == Clock(old(Value()), x)
      ensures granted == if Grants(old(Value()), x) then Some(Offered(old(Value()))) else None
    {
      granted := if x.allocReq && count > 0 then Some(AllocId()) else None;
      var oldCount := count;
      if x.allocReq && oldCount > 0 {
        head := (head + 1) % NUM_CELLS;
        count := oldCount - 1;
      }
      if x.free.Some? {
        freeList[tail] := x.free.value;
        tail := (tail + 1) % NUM_CELLS;
        count := (oldCount + 1) % COUNT_RANGE;
      }
    }
  }

  // ----- the invariant: the free cells, each once, and the cells handed out partition all cells

  function Wrap(i: nat): Cell { i % NUM_CELLS }

  /** The position `i` places after the head. */
  function Place(head: nat, i: nat): Cell { Wrap(head + i) }

  /** The cells in the FIFO, next to be handed out first. */
  ghost function Queue(s: State): seq<Cell> {
    seq(s.count, i requires 0 <= i => s.list[Place(s.head, i)])
  }

  ghost predicate Distinct(q: seq<Cell>) {
    forall i, j :: 0 <= i < j < |q| ==> q[i] != q[j]
  }

  ghost predicate Inv(s: State, taken: set<Cell>) {
    && s.count <= NUM_CELLS
    && s.tail == Place(s.head, s.count)
    && Distinct(Queue(s))
    && (forall c: Cell :: c in Queue(s) <==> c !in taken)
  }

  /** The cells handed out after a clock. */
  function Taken(s: State, taken: set<Cell>, x: Inputs): set<Cell> {
    var t := if Grants(s, x) then taken + {Offered(s)} else taken;
    if x.free.Some? then t - {x.free.value} else t
  }

  lemma InitialInv()
    ensures Inv(Initial(), {})
  {
    var q := Queue(Initial());
    forall c: Cell ensures q[c] == c && c in q { assert Place(0, c) == c; }
  }

  lemma AllocTakesFirst(s: State, taken: set<Cell>, x: Inputs)
    requires Inv(s, taken) && Grants(s, x) && x.free.None?
    ensures Queue(s) == [s.list[s.head]] + Queue(Clock(s, x))
  {
    var next := Wrap(s.head + 1);
    forall i: nat ensures Place(next, i) == Place(s.head, i + 1) { WrapTwice(s.head + 1, i); }
    assert Place(s.head, 0) == s.head;
  }

  lemma WrapTwice(a: nat, i: nat)
    ensures Wrap(Wrap(a) + i) == Wrap(a + i)
  {
  }

  lemma WrapDiffers(a: nat, i: nat, j: nat)
    requires i < j < i + NUM_CELLS
    ensures Wrap(a + i) != Wrap(a + j)
  {
  }

  lemma FreeAppends(s: State, taken: set<Cell>, x: Inputs)
    requires Inv(s, taken) && s.count < NUM_CELLS && !Grants(s, x) && x.free.Some?
    ensures Queue(Clock(s, x)) == Queue(s) + [x.free.value]
  {
    forall i: nat | i < s.count ensures Place(s.head, i) != s.tail { WrapDiffers(s.head, i, s.count); }
  }

  lemma AllocKeepsInv(s: State, taken: set<Cell>, x: Inputs)
    requires Inv(s, taken) && Grants(s, x) && x.free.None?
    ensures Inv(Clock(s, x), Taken(s, taken, x))
  {
    AllocTakesFirst(s, taken, x);
    WrapTwice(s.head + 1, s.count - 1);
    hide Queue, Distinct;
    PopKeepsPartition(Queue(s), s.list[s.head], Queue(Clock(s, x)), taken);
  }

  lemma PopKeepsPartition(q: seq<Cell>, c: Cell, rest: seq<Cell>, taken: set<Cell>)
    requires q == [c] + rest && Distinct(q) && forall d: Cell :: d in q <==> d !in taken
    ensures Distinct(rest) && forall d: Cell :: d in rest <==> d !in taken + {c}
  {
    assert q[0] == c && forall i :: 0 <= i < |rest| ==> rest[i] == q[i + 1];
  }

  lemma FreeKeepsInv(s: State, taken: set<Cell>, x: Inputs)
    requires Inv(s, taken) && !Grants(s, x) && x.free.Some? && x.free.value in taken
    ensures Inv(Clock(s, x), Taken(s, taken, x))
  {
    CountIsExact(s, taken);
    FreeAppends(s, taken, x);
    WrapTwice(s.head + s.count, 1);
  }

  // ----- the count is exact

  predicate Below(c: Cell, n: nat) { c < n }

  ghost function All(n: nat): set<Cell> { set c: Cell | 0 <= c < NUM_CELLS && Below(c, n) }

  lemma {:induction false} AllSize(n: nat)
    requires n <= NUM_CELLS
    ensures |All(n)| == n
  {
    if n > 0 {
      AllSize(n - 1);
      assert All(n) == All(n - 1) + {n - 1};
    }
  }

  ghost function Elements(q: seq<Cell>): set<Cell> { set c | c in q }

  lemma {:induction false} DistinctSize(q: seq<Cell>)
    requires Distinct(q)
    ensures |Elements(q)| == |q|
  {
    if q != [] {
      DistinctSize(q[1..]);
      assert Elements(q) == Elements(q[1..]) + {q[0]};
    }
  }

  /** The count register is the number of cells not handed out. */
  lemma CountIsExact(s: State, taken: set<Cell>)
    requires Inv(s, taken)
    ensures s.count + |taken| == NUM_CELLS
  {
    DistinctSize(Queue(s));
    AllSize(NUM_CELLS);
    assert Elements(Queue(s)) + taken == All(NUM_CELLS) && Elements(Queue(s)) !! taken;
  }

  /** A request is granted exactly while some cell is not handed out; it gets the cell that has been free longest, and a
      cell freed comes after all that are free. */
  lemma GrantedIffFree(s: State, taken: set<Cell>, x: Inputs)
    requires Inv(s, taken)
    ensures Grants(s, x) <==> x.allocReq && |taken| < NUM_CELLS
    ensures Grants(s, x) && x.free.None? ==> Queue(s) == [Offered(s)] + Queue(Clock(s, x))
    ensures !x.allocReq && x.free.Some? && x.free.value in taken ==> Queue(Clock(s, x)) == Queue(s) + [x.free.value]
    ensures !x.allocReq && x.free.None? ==> Clock(s, x) == s
  {
    CountIsExact(s, taken);
    if Grants(s, x) && x.free.None? { AllocTakesFirst(s, taken, x); }
    if !x.allocReq && x.free.Some? && x.free.value in taken { FreeAppends(s, taken, x); }
    hide Inv, Queue, Offered;
  }

  // ----- every clock and every run

  /** With frees of allocated cells only, a clock keeps the FIFO exact if and only if it does not both hand out a cell
      and take one back. */
  lemma ClockKeepsInvIff(s: State, taken: set<Cell>, x: Inputs)
    requires Inv(s, taken) && (x.free.Some? ==> x.free.value in taken)
    ensures Inv(Clock(s, x), Taken(s, taken, x)) <==> !(Grants(s, x) && x.free.Some?)
  {
    hide Inv, Clock;
    if Grants(s, x) && x.free.Some? {
      BothBreakInv(s, taken, x);
    } else if Grants(s, x) {
      AllocKeepsInv(s, taken, x);
    } else if x.free.Some? {
      FreeKeepsInv(s, taken, x);
    } else {
      IdleChangesNothing(s, taken, x);
    }
  }

  lemma IdleChangesNothing(s: State, taken: set<Cell>, x: Inputs)
    requires !Grants(s, x) && x.free.None?
    ensures Clock(s, x) == s && Taken(s, taken, x) == taken
  {
  }

  lemma BothBreakInv(s: State, taken: set<Cell>, x: Inputs)
    requires Inv(s, taken) && Grants(s, x) && x.free.Some? && x.free.value in taken
    ensures !Inv(Clock(s, x), Taken(s, taken, x))
  {
    hide Queue, Distinct, Place, Wrap;
    CountIsExact(s, taken);
    BothBreakTail(s);
    StepsAreWraps(s);
  }

  lemma StepsAreWraps(s: State)
    ensures (s.tail + 1) % NUM_CELLS == Wrap(s.tail + 1) && (s.head + 1) % NUM_CELLS == Wrap(s.head + 1)
  {
  }

  lemma BothBreakTail(s: State)
    requires s.count < NUM_CELLS && s.tail == Place(s.head, s.count)
    ensures Wrap(s.tail + 1) != Place(Wrap(s.head + 1), s.count + 1)
  {
    WrapTwice(s.head + s.count, 1);
    WrapTwice(s.head + 1, s.count + 1);
    WrapDiffers(s.head, s.count + 1, s.count + 2);
  }

  /** No cell is handed out twice: the cell offered is not among those in use. */
  lemma OfferedCellIsFree(s: State, taken: set<Cell>)
    requires Inv(s, taken) && s.count > 0
    ensures Offered(s) !in taken
  {
    assert Queue(s)[0] == s.list[s.head];
  }

  datatype Run = Run(s: State, taken: set<Cell>)

  function After(xs: seq<Inputs>): Run {
    if xs == [] then Run(Initial(), {})
    else
      var r := After(xs[..|xs| - 1]);
      var x := xs[|xs| - 1];
      Run(Clock(r.s, x), Taken(r.s, r.taken, x))
  }

  /** No clock both grants and frees, and only cells in use are freed. */
  ghost predicate Disciplined(xs: seq<Inputs>) {
    forall i :: 0 <= i < |xs| ==> DisciplinedAt(After(xs[..i]), xs[i])
  }

  predicate DisciplinedAt(r: Run, x: Inputs) {
    x.free.Some? ==> x.free.value in r.taken && !Grants(r.s, x)
  }

  lemma {:induction false} EveryRunKeepsInv(xs: seq<Inputs>)
    requires Disciplined(xs)
    ensures var r := After(xs); Inv(r.s, r.taken) && r.s.count + |r.taken| == NUM_CELLS
  {
    if xs == [] {
      InitialInv();
    } else {
      var ys := xs[..|xs| - 1];
      assert forall i :: 0 <= i < |ys| ==> ys[..i] == xs[..i] && ys[i] == xs[i];
      EveryRunKeepsInv(ys);
      ClockKeepsInvIff(After(ys).s, After(ys).taken, xs[|xs| - 1]);
    }
    CountIsExact(After(xs).s, After(xs).taken);
  }
}

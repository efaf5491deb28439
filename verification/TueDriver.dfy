/** The driver of the update engine (sw/hal/rv_p4_hal.c) over the two clocks, with traffic streaming through a stage all
    the while. The engine broadcasts to every stage alike; `Chip` holds one of them, whichever it is. */
module TueDriver {
  import opened Words
  import opened Hal
  import opened MauTcam
  import opened MauAlu
  import opened MauStage
  import opened Tue
  import opened TueProtocol

  const TIMEOUT: nat := 100000

  lemma TablesStep(p: Pipe, x: Input)
    ensures TablesOf(Edge(p, x)) == Apply(TablesOf(p), x.cfg)
  {
    hide FirstFrom, Alu, KeyOf;
  }

  function TablesOf(p: Pipe): Tables { Tables(p.tcam.table, p.asram) }

  ghost predicate QuietFor(tb: Tables, c: Config) { Quiet(tb.table, tb.rows, c) }

  /** The writes a control cycle can cause find the tables quiet. */
  ghost predicate QuietCycle(s: EngineState, tb: Tables, id: nat) {
    s.pulse || s.ff1 || s.pulseDp ==> QuietFor(tb, Driven(s.latch, s.regs.tableId, true, id))
  }

  lemma QuietDuringCycle(s: EngineState, tb: Tables, k: nat, id: nat)
    requires QuietCycle(s, tb, id)
    ensures QuietFor(TablesAfter(s, tb, k, id), Broadcast(Synced(s, k), id))
  {
  }

  lemma QuietAppend(p: Pipe, xs: seq<Input>, x: Input, from: nat)
    requires QuietFrom(p, xs, from) && QuietAt(After(p, xs), x.cfg)
    ensures QuietFrom(p, xs + [x], from)
  {
    hide After, Quiet;
    var ys := xs + [x];
    forall i | from <= i < |ys| ensures QuietAt(After(p, ys[..i]), ys[i].cfg) {
      assert ys[..i] == xs[..i];
      if i == |xs| { assert xs[..i] == xs; }
    }
  }

  /** What to look for in the trace: from a point on, at most one change, from one version of the tables to another. */
  datatype Watch = Watch(from: nat, before: Tables, after: Tables)

  /** The tables as they stand before datapath edge `i`. */
  ghost function VersionAt(p: Pipe, xs: seq<Input>, i: nat): Tables
    requires i <= |xs|
  {
    TablesOf(After(p, xs[..i]))
  }

  predicate Fits(w: Watch, a: Tables, b: Tables) { a == b || (a == w.before && b == w.after) }

  ghost predicate StepFits(p: Pipe, xs: seq<Input>, w: Watch, i: nat)
    requires i < |xs|
  {
    Fits(w, VersionAt(p, xs, i), VersionAt(p, xs, i + 1))
  }

  ghost predicate OneChange(p: Pipe, xs: seq<Input>, w: Watch) {
    && w.from <= |xs| && VersionAt(p, xs, w.from) == w.before
    && forall i :: w.from <= i < |xs| ==> StepFits(p, xs, w, i)
  }

  lemma OneChangeAppend(p: Pipe, xs: seq<Input>, x: Input, w: Watch)
    requires OneChange(p, xs, w) && Fits(w, TablesOf(After(p, xs)), TablesOf(After(p, xs + [x])))
    ensures OneChange(p, xs + [x], w)
  {
    hide After, TablesOf, Fits;
    var ys := xs + [x];
    assert xs[..|xs|] == xs && ys[..|xs|] == xs && ys[..|ys|] == ys && ys[..w.from] == xs[..w.from];
    forall i | w.from <= i < |ys| ensures StepFits(p, ys, w, i) {
      if i < |xs| {
        assert StepFits(p, xs, w, i) && ys[..i] == xs[..i] && ys[..i + 1] == xs[..i + 1];
      }
    }
  }

  lemma WatchStarts(p: Pipe, xs: seq<Input>, after: Tables)
    ensures OneChange(p, xs, Watch(|xs|, TablesOf(After(p, xs)), after))
  {
    assert xs[..|xs|] == xs;
  }

  lemma TraceGrows(p: Pipe, xs: seq<Input>, x: Input, w: Watch)
    ensures After(p, xs + [x]) == Edge(After(p, xs), x)
    ensures TablesOf(After(p, xs + [x])) == Apply(TablesOf(After(p, xs)), x.cfg)
    ensures QuietFrom(p, xs, w.from) && QuietFor(TablesOf(After(p, xs)), x.cfg) ==> QuietFrom(p, xs + [x], w.from)
    ensures OneChange(p, xs, w) && Fits(w, TablesOf(After(p, xs)), TablesOf(After(p, xs + [x]))) ==>
      OneChange(p, xs + [x], w)
  {
    assert (xs + [x])[..|xs|] == xs;
    TablesStep(After(p, xs), x);
    hide Edge, Quiet, Apply, Fits, QuietFrom, OneChange;
    if QuietFrom(p, xs, w.from) && QuietFor(TablesOf(After(p, xs)), x.cfg) { QuietAppend(p, xs, x, w.from); }
    if OneChange(p, xs, w) && Fits(w, TablesOf(After(p, xs)), TablesOf(After(p, xs + [x]))) {
      OneChangeAppend(p, xs, x, w);
    }
  }

  /** One change at most, from the old tables to the new: there is a point before which every version is the old one,
      and from which on every version is the new one. */
  lemma {:induction false} SwitchPoint(p: Pipe, xs: seq<Input>, w: Watch, n: nat) returns (k: nat)
    requires OneChange(p, xs, w) && w.from <= n <= |xs|
    ensures w.from < k <= n + 1
    ensures forall i :: w.from <= i <= n ==> VersionAt(p, xs, i) == if i < k then w.before else w.after
  {
    hide VersionAt;
    if n == w.from {
      k := n + 1;
    } else {
      k := SwitchPoint(p, xs, w, n - 1);
      assert StepFits(p, xs, w, n - 1);
      if k == n && VersionAt(p, xs, n) == w.before { k := n + 1; }
    }
  }

  /** If a transaction is under way, its write will find the tables quiet. */
  ghost predicate WillBeQuiet(s: EngineState, tb: Tables, id: nat) {
    Pending(s) || s.ts == TsApply ==> QuietFor(tb, Driven(s.regs.request, s.regs.tableId, true, id))
  }

  lemma QuiescentStaysQuiet(s: EngineState, tb: Tables, id: nat)
    requires Inv(s) && WillBeQuiet(s, tb, id)
    ensures QuietCycle(Ctrl(s, Quiescent), tb, id)
    ensures WillBeQuiet(Cycle(s, Quiescent), CycleTables(s, Quiescent, tb, id), id)
  {
    AppliedIsQuiet(tb, Driven(s.regs.request, s.regs.tableId, true, id));
    hide Apply, Quiet;
  }

  lemma AppliedIsQuiet(tb: Tables, c: Config)
    ensures QuietFor(Apply(tb, c), c)
  {
  }

  lemma RestingIsQuiet(s: EngineState, tb: Tables, id: nat)
    requires Resting(s)
    ensures WillBeQuiet(s, tb, id)
  {
  }

  /** Once the commit pulse has been consumed, the status register tells whether the engine rests. */
  lemma StatusTells(s: EngineState)
    requires Inv(s) && !s.commit
    ensures s.status in {STATUS_IDLE, STATUS_BUSY, STATUS_DONE}
    ensures s.status == STATUS_BUSY <==> Left(s) > 0
  {
  }

  // ----- the words of a key or mask register block

  function WithWords(r: Regs, base: nat, ws: Key): Regs {
    if base == REG_KEY_0 then r.(request := r.request.(key := ws)) else r.(request := r.request.(mask := ws))
  }

  function WordsIn(r: Regs, base: nat): Key { if base == REG_KEY_0 then r.request.key else r.request.mask }

  function Filled(was: Key, ws: Key, i: nat): Key
    requires i <= 16
  {
    ws[..i] + was[i..]
  }

  lemma FilledStep(r: Regs, base: nat, ws: Key, i: nat)
    requires i < 16 && (base == REG_KEY_0 || base == REG_MASK_0)
    ensures RegWrite(WithWords(r, base, Filled(WordsIn(r, base), ws, i)), base + i * 4, ws[i])
         == WithWords(r, base, Filled(WordsIn(r, base), ws, i + 1))
  {
    var was := WordsIn(r, base);
    assert Filled(was, ws, i)[i := ws[i]] == Filled(was, ws, i + 1);
  }

  lemma CommitKeepsRegs(r: Regs)
    ensures RegWrite(r, REG_COMMIT, 1) == r
  {
  }

  lemma FilledEnds(r: Regs, base: nat, ws: Key)
    ensures WithWords(r, base, Filled(WordsIn(r, base), ws, 0)) == r
    ensures Filled(WordsIn(r, base), ws, 16) == ws
  {
  }

  function Targeted(r: Regs, cmd: TwoBits, tableId: uint16, stageId: uint8): Regs {
    Regs(r.request.(cmd := cmd, stage := stageId % 32), tableId)
  }

  function WithAction(r: Regs, e: TcamEntry): Regs {
    r.(request := r.request.(
      actionId := e.actionId, p0 := WordAt(e.params, 0), p1 := WordAt(e.params, 1), p2 := WordAt(e.params, 2)))
  }

  /** What the stage is to hold for an entry. */
  function InstalledEntry(e: TcamEntry): Entry {
    Entry(Packed(Used(e.key)), Packed(Used(e.mask)), e.actionId, e.tableId, true)
  }

  function InstalledRow(e: TcamEntry): Action {
    Action(e.actionId, 0, WordAt(e.params, 2), WordAt(e.params, 1), WordAt(e.params, 0))
  }

  function Installed(e: TcamEntry): Latch {
    Latch(CMD_INSERT, e.stage % 32, Packed(Used(e.key)), Packed(Used(e.mask)), e.actionId,
          WordAt(e.params, 0), WordAt(e.params, 1), WordAt(e.params, 2))
  }

  lemma InsertRequest(r: Regs, e: TcamEntry)
    ensures
      var r1 := WithWords(Targeted(r, CMD_INSERT, e.tableId, e.stage), REG_KEY_0, Packed(Used(e.key)));
      WithAction(WithWords(r1, REG_MASK_0, Packed(Used(e.mask))), e) == Regs(Installed(e), e.tableId)
    ensures EntryOf(Installed(e), e.tableId) == InstalledEntry(e) && RowOf(Installed(e)) == InstalledRow(e)
  {
  }

  /** A header vector that an installed entry wins gets the action installed with it, whatever its table id. */
  lemma InstalledActs(tb: Tables, e: TcamEntry, phv: Phv)
    requires First(tb.table[e.tableId % 2048 := InstalledEntry(e)], KeyOf(phv)) == Some(e.tableId % 2048)
    ensures ActionFor(tb.table[e.tableId % 2048 := InstalledEntry(e)], tb.rows[e.tableId := InstalledRow(e)], phv) ==
      InstalledRow(e)
  {
    hide First, KeyOf, InstalledRow;
  }

  lemma InsertMeans(tb: Tables, e: TcamEntry, id: nat)
    requires OwnRows(tb.table)
    ensures var a := Applied(tb, Installed(e), e.tableId, id);
      if e.stage % 32 == id then
        a == Tables(tb.table[e.tableId % 2048 := InstalledEntry(e)], tb.rows[e.tableId := InstalledRow(e)])
      else a == tb
    ensures (e.stage % 32 == id ==> !tb.table[e.tableId % 2048].valid) ==>
      QuietFor(tb, Driven(Installed(e), e.tableId, true, id))
  {
    hide Packed, Used, WordAt, OwnRows;
    if e.stage % 32 == id ==> !tb.table[e.tableId % 2048].valid { FreeIndexIsQuiet(tb, Installed(e), e.tableId, id); }
  }

  lemma DeleteMeans(tb: Tables, r: Regs, tableId: uint16, stageId: uint8, id: nat)
    requires OwnRows(tb.table)
    ensures var a := Applied(tb, Targeted(r, CMD_DELETE, tableId, stageId).request, tableId, id);
      if stageId % 32 == id then
        && !a.table[tableId % 2048].valid
        && (forall i: Index :: i != tableId % 2048 ==> a.table[i] == tb.table[i])
        && a.rows == tb.rows[tableId := RowOf(r.request)]
      else a == tb
    ensures (stageId % 32 == id ==> !tb.table[tableId % 2048].valid) ==>
      QuietFor(tb, Driven(Targeted(r, CMD_DELETE, tableId, stageId).request, tableId, true, id))
  {
    hide OwnRows;
    if stageId % 32 == id ==> !tb.table[tableId % 2048].valid {
      FreeIndexIsQuiet(tb, Targeted(r, CMD_DELETE, tableId, stageId).request, tableId, id);
    }
  }

  /** The bytes in use, copied over a buffer of zeros. */
  method Padded(k: TcamKey) returns (buf: KeyBytes)
    ensures buf == Used(k)
  {
    var b := new uint8[64](_ => 0);
    var n: nat := if k.len > 64 then 64 else k.len;
    for i := 0 to n
      invariant forall j :: 0 <= j < 64 ==> b[j] == if j < i then k.bytes[j] else 0
    {
      b[i] := k.bytes[i];
    }
    buf := b[..];
  }

  lemma QuiescentFits(w: Watch, s: EngineState, tb: Tables, id: nat)
    requires Inv(s) && Settled(s, tb, id)
    ensures var tb' := CycleTables(s, Quiescent, tb, id);
      && (tb' == tb || tb' == Outcome(s, tb, id))
      && ((tb == w.before || tb == w.after) && Outcome(s, tb, id) == w.after ==>
          Fits(w, tb, tb') && (tb' == w.before || tb' == w.after))
  {
    ApplyTwice(tb, Driven(s.regs.request, s.regs.tableId, true, id));
    hide Apply, OwnRows;
  }

  lemma EarlierStepsFit(w: Watch, s: EngineState, tb: Tables, k: nat, n: nat, id: nat)
    requires k < n && Fits(w, tb, TablesAfter(s, tb, n, id))
    ensures Fits(w, TablesAfter(s, tb, k, id), TablesAfter(s, tb, k + 1, id))
  {
    hide Apply;
  }

  class Chip {
    const id: nat
    const tue: Engine
    const stage: Stage
    ghost var start: Pipe
    ghost var trace: seq<Input>
    ghost var watch: Watch

    ghost function Repr(): set<object> { {this, tue} + stage.Repr() }

    /** The trace records every datapath edge the stage has seen. */
    ghost predicate Recorded()
      reads Repr()
    {
      stage.Valid() && stage.Value() == After(start, trace)
    }

    ghost function Memory(): Tables
      reads Repr()
      requires Recorded()
    {
      TablesOf(stage.Value())
    }

    /** Every write since the watch began found the tables quiet, so every header vector since then was processed
        atomically. */
    ghost predicate Linear()
      reads this
    {
      QuietFrom(start, trace, watch.from)
    }

    /** The latest request changed the tables once at most. */
    ghost predicate OnWatch()
      reads this
    {
      OneChange(start, trace, watch)
    }

    /** Everything since the watch began fits it, and what is still to come will. */
    ghost predicate Tracks()
      reads Repr()
      requires Recorded()
    {
      && OnWatch() && (Memory() == watch.before || Memory() == watch.after)
      && Outcome(tue.Value(), Memory(), id) == watch.after
    }

    /** The stage has run on from where it was: the trace only gets longer. */
    twostate predicate Extended()
      reads this
    {
      start == old(start) && old(trace) <= trace
    }

    /** The tables are as they were, and what was true of the trace still is. */
    ghost predicate Kept(tb: Tables, linear: bool, onWatch: bool, w: Watch)
      reads Repr()
      requires Recorded()
    {
      Memory() == tb && watch == w && (linear ==> Linear()) && (onWatch ==> OnWatch())
    }

    ghost predicate Sound()
      reads Repr()
    {
      Recorded() && Inv(tue.Value()) && Settled(tue.Value(), Memory(), id)
    }

    /** What holds between driver calls: no transaction is under way. */
    ghost predicate Valid()
      reads Repr()
    {
      Sound() && Resting(tue.Value())
    }

    constructor (stageId: nat)
      ensures Valid() && fresh(Repr()) && id == stageId && tue.Value() == Reset() && Linear()
      ensures forall i: Index :: !Memory().table[i].valid
    {
      id := stageId;
      tue := new Engine();
      stage := new Stage();
      trace := [];
      new;
      start := stage.Value();
    }

    method DpEdge(phv: Option<Flit>)
      requires Recorded()
      modifies Repr()
      ensures Recorded() && tue.Value() == Dp(old(tue.Value()))
      ensures Memory() == Apply(old(Memory()), Broadcast(old(tue.Value()), id))
      ensures old(Linear()) && QuietFor(old(Memory()), Broadcast(old(tue.Value()), id)) ==> Linear()
      ensures watch == old(watch) && start == old(start)
      ensures trace == old(trace) + [Input(phv, Broadcast(old(tue.Value()), id))]
      ensures old(OnWatch()) && Fits(watch, old(Memory()), Memory()) ==> OnWatch()
    {
      hide Edge, Quiet, Driven, OneChange, QuietFrom, After, Apply;
      var cfg := tue.Drive(id);
      var x := Input(phv, cfg);
      TraceGrows(start, trace, x, watch);
      stage.ClockEdge(x);
      tue.DpEdge();
      trace := trace + [x];
    }

    /** A control edge, then three or more datapath edges, whatever is streamed in. */
    method CtrlCycle(x: Apb)
      requires Recorded()
      modifies Repr()
      ensures Recorded() && tue.Value() == Cycle(old(tue.Value()), x)
      ensures Memory() == CycleTables(old(tue.Value()), x, old(Memory()), id)
      ensures old(Linear()) && QuietCycle(Ctrl(old(tue.Value()), x), old(Memory()), id) ==> Linear()
      ensures watch == old(watch) && (old(OnWatch()) && Fits(watch, old(Memory()), Memory()) ==> OnWatch())
      ensures Extended()
    {
      hide Advance, RegWrite, Apply, Quiet, Linear, OnWatch;
      tue.CtrlEdge(x);
      ghost var s, tb := tue.Value(), Memory();
      var n: nat := *;
      n := if n < 3 then 3 else n;
      assert Synced(s, 0) == s;
      for k := 0 to n
        invariant Recorded() && tue.Value() == Synced(s, k) && Memory() == TablesAfter(s, tb, k, id)
        invariant Extended() && (old(Linear()) && QuietCycle(s, tb, id) ==> Linear())
        invariant watch == old(watch) && (old(OnWatch()) && Fits(watch, tb, TablesAfter(s, tb, n, id)) ==> OnWatch())
      {
        var phv: Option<Flit> := *;
        DpEdgeStep(s, tb, k, id);
        if Fits(watch, tb, TablesAfter(s, tb, n, id)) { EarlierStepsFit(watch, s, tb, k, n, id); }
        if QuietCycle(s, tb, id) { QuietDuringCycle(s, tb, k, id); }
        DpEdge(phv);
      }
      MoreEdgesChangeNothing(s, tb, n, id);
    }

    /** A control cycle in which the bus writes nothing. */
    method QuiescentStep()
      requires Sound()
      modifies Repr()
      ensures Sound() && Extended() && tue.Value() == Cycle(old(tue.Value()), Quiescent)
      ensures tue.Value().regs == old(tue.Value().regs) && !tue.Value().commit
      ensures Outcome(tue.Value(), Memory(), id) == old(Outcome(tue.Value(), Memory(), id))
      ensures if old(Left(tue.Value())) == 0 then Left(tue.Value()) == 0 else Left(tue.Value()) < old(Left(tue.Value()))
      ensures old(Linear() && WillBeQuiet(tue.Value(), Memory(), id)) ==>
        Linear() && WillBeQuiet(tue.Value(), Memory(), id)
      ensures watch == old(watch) && (old(Tracks()) ==> Tracks())
        && (old(OnWatch()) && Memory() == old(Memory()) ==> OnWatch())
      ensures old(Left(tue.Value())) == 0 ==> Memory() == old(Memory())
    {
      ghost var s, tb := tue.Value(), Memory();
      QuiescentCycle(s, tb, id);
      QuiescentFits(watch, s, tb, id);
      if WillBeQuiet(s, tb, id) { QuiescentStaysQuiet(s, tb, id); }
      hide Inv, Settled, Outcome, Advance, TablesAfter, QuietCycle, WillBeQuiet;
      CtrlCycle(Quiescent);
    }

    /** A bus write: a setup cycle and an access cycle. */
    method MmioWrite(addr: nat, data: uint32)
      requires Valid()
      modifies Repr()
      ensures Sound() && Extended() && Kept(old(Memory()), old(Linear()), old(OnWatch()), old(watch))
      ensures tue.Value().regs == RegWrite(old(tue.Value().regs), addr, data)
      ensures tue.Value().commit == (addr == REG_COMMIT && data % 2 == 1)
      ensures addr != REG_COMMIT ==> Valid()
      ensures addr == REG_COMMIT && data % 2 == 1 ==> Pending(tue.Value())
    {
      RestingIsQuiet(tue.Value(), Memory(), id);
      RestingIff(tue.Value());
      QuiescentStep();
      RestingIff(tue.Value());
      ghost var s, tb := tue.Value(), Memory();
      WriteCycle(s, tb, id, addr, data);
      hide Apply, RegWrite, Quiet;
      CtrlCycle(Access(addr, data));
    }

    /** A bus read of the status: it returns what the register holds after the setup cycle. */
    method ReadStatus() returns (st: uint32)
      requires Sound()
      modifies Repr()
      ensures Sound() && Extended() && tue.Value().regs == old(tue.Value().regs)
      ensures Outcome(tue.Value(), Memory(), id) == old(Outcome(tue.Value(), Memory(), id))
      ensures old(Linear() && WillBeQuiet(tue.Value(), Memory(), id)) ==>
        Linear() && WillBeQuiet(tue.Value(), Memory(), id)
      ensures st in {STATUS_IDLE, STATUS_BUSY, STATUS_DONE}
      ensures if st == STATUS_BUSY then Left(tue.Value()) + 2 <= old(Left(tue.Value())) else Left(tue.Value()) == 0
      ensures watch == old(watch) && (old(Tracks()) ==> Tracks())
      ensures old(Left(tue.Value())) == 0 ==> Memory() == old(Memory()) && (old(OnWatch()) ==> OnWatch())
    {
      hide Tracks, OnWatch, Outcome, WillBeQuiet, Settled, Cycle, Recorded, Linear;
      QuiescentStep();
      StatusTells(tue.Value());
      st := tue.Read(REG_STATUS);
      hide Inv, Left;
      QuiescentStep();
    }

    /** Polls until no transaction is under way. It never times out, and never finds an error. */
    method TueWaitIdle() returns (code: HalCode)
      requires Sound()
      modifies Repr()
      ensures code == HalOk && Valid() && Extended() && tue.Value().regs == old(tue.Value().regs)
      ensures Memory() == old(Outcome(tue.Value(), Memory(), id))
      ensures old(Linear() && WillBeQuiet(tue.Value(), Memory(), id)) ==> Linear()
      ensures watch == old(watch) && (old(Tracks()) ==> OnWatch())
      ensures old(Left(tue.Value())) == 0 && old(OnWatch()) ==> OnWatch()
    {
      var timeout := TIMEOUT;
      while timeout != 0
        invariant Sound() && Extended() && tue.Value().regs == old(tue.Value().regs)
        invariant Outcome(tue.Value(), Memory(), id) == old(Outcome(tue.Value(), Memory(), id))
        invariant old(Linear() && WillBeQuiet(tue.Value(), Memory(), id)) ==>
          Linear() && WillBeQuiet(tue.Value(), Memory(), id)
        invariant watch == old(watch) && (old(Tracks()) ==> Tracks())
        invariant old(Left(tue.Value())) == 0 ==> Left(tue.Value()) == 0 && (old(OnWatch()) ==> OnWatch())
        invariant timeout <= TIMEOUT && Left(tue.Value()) + (TIMEOUT - timeout) <= DRAIN_CYCLES + 4
      {
        timeout := timeout - 1;
        hide WillBeQuiet, Apply, Settled, OneChange;
        var st := ReadStatus();
        if st == STATUS_IDLE || st == STATUS_DONE {
          RestingIff(tue.Value());
          return HalOk;
        }
        if st == STATUS_ERROR { return HalBusy; }
      }
      return HalTimeout;
    }

    /** Writes a key or a mask, padded to 64 bytes, into its sixteen registers. */
    method TueWriteKey(base: nat, k: TcamKey)
      requires Valid() && (base == REG_KEY_0 || base == REG_MASK_0)
      modifies Repr()
      ensures Valid() && Extended() && Kept(old(Memory()), old(Linear()), old(OnWatch()), old(watch))
      ensures tue.Value().regs == WithWords(old(tue.Value().regs), base, Packed(Used(k)))
    {
      hide OnWatch, Resting, Recorded, Inv, Linear, Settled, RegWrite, WithWords, WordsIn, Filled, LeWord, Used;
      var buf := Padded(k);
      ghost var r := tue.Value().regs;
      FilledEnds(r, base, Packed(buf));
      for i := 0 to 16
        invariant Valid() && Extended() && Kept(old(Memory()), old(Linear()), old(OnWatch()), old(watch))
        invariant tue.Value().regs == WithWords(r, base, Filled(WordsIn(r, base), Packed(buf), i))
      {
        FilledStep(r, base, Packed(buf), i);
        MmioWrite(base + i * 4, LeWord(buf[4 * i], buf[4 * i + 1], buf[4 * i + 2], buf[4 * i + 3]));
      }
    }

    method TueCommit() returns (code: HalCode)
      requires Valid()
      modifies Repr()
      ensures code == HalOk && Valid() && Extended()
      ensures Memory() == Applied(old(Memory()), old(tue.Value().regs.request), old(tue.Value().regs.tableId), id)
      ensures old(Linear() && QuietFor(Memory(), Driven(tue.Value().regs.request, tue.Value().regs.tableId, true, id)))
          ==> Linear()
      ensures watch == old(watch) && tue.Value().regs == old(tue.Value().regs)
      ensures old(OnWatch()) && watch.before == old(Memory()) && watch.after == Memory() ==> OnWatch()
    {
      hide Apply, Quiet, Settled, Recorded, Inv, Linear, RegWrite, Resting, OnWatch;
      CommitKeepsRegs(tue.Value().regs);
      MmioWrite(REG_COMMIT, 1);
      code := TueWaitIdle();
    }

    /** The wait before a request: nothing is under way, so nothing changes. */
    method WaitAtRest() returns (code: HalCode)
      requires Valid()
      modifies Repr()
      ensures code == HalOk && Valid() && Extended() && tue.Value().regs == old(tue.Value().regs)
      ensures Kept(old(Memory()), old(Linear()), old(OnWatch()), old(watch))
    {
      RestingIsQuiet(tue.Value(), Memory(), id);
      RestingIff(tue.Value());
      hide Recorded, Inv, Linear, OnWatch, Settled, Apply, QuietFor, WillBeQuiet;
      code := TueWaitIdle();
    }

    method WriteTarget(cmd: TwoBits, tableId: uint16, stageId: uint8)
      requires Valid()
      modifies Repr()
      ensures Valid() && Extended() && Kept(old(Memory()), old(Linear()), old(OnWatch()), old(watch))
      ensures tue.Value().regs == Targeted(old(tue.Value().regs), cmd, tableId, stageId)
    {
      hide OnWatch, Resting, Recorded, Inv, Linear, Settled;
      MmioWrite(REG_CMD, cmd);
      MmioWrite(REG_TABLE_ID, tableId);
      MmioWrite(REG_STAGE, stageId);
    }

    method WriteAction(e: TcamEntry)
      requires Valid()
      modifies Repr()
      ensures Valid() && Extended() && Kept(old(Memory()), old(Linear()), old(OnWatch()), old(watch))
      ensures tue.Value().regs == WithAction(old(tue.Value().regs), e)
    {
      hide OnWatch, Resting, Recorded, Inv, Linear, Settled, LeWord;
      var p := e.params;
      MmioWrite(REG_ACTION_ID, e.actionId);
      MmioWrite(REG_ACTION_P0, LeWord(p[0], p[1], p[2], p[3]));
      MmioWrite(REG_ACTION_P1, LeWord(p[4], p[5], p[6], p[7]));
      MmioWrite(REG_ACTION_P2, LeWord(p[8], p[9], p[10], p[11]));
    }

    /** All register writes of an insertion but the commit. */
    method WriteInsert(e: TcamEntry)
      requires Valid()
      modifies Repr()
      ensures Valid() && Extended() && Kept(old(Memory()), old(Linear()), old(OnWatch()), old(watch))
      ensures tue.Value().regs == Regs(Installed(e), e.tableId)
    {
      hide OnWatch, Resting, Recorded, Inv, Linear, Settled, Targeted, WithWords, WithAction, Installed;
      InsertRequest(tue.Value().regs, e);
      WriteTarget(CMD_INSERT, e.tableId, e.stage);
      TueWriteKey(REG_KEY_0, e.key);
      TueWriteKey(REG_MASK_0, e.mask);
      WriteAction(e);
    }

    /** Installs an entry. On return the addressed stage holds exactly the request, every other entry, row and stage is
        as before, and the pulse has ended; at an index without a valid entry, traffic saw the change atomically. */
    method HalTcamInsert(e: TcamEntry) returns (code: HalCode)
      requires Valid()
      modifies Repr()
      ensures code == HalOk && Valid() && Extended()
      ensures e.stage % 32 != id ==> Memory() == old(Memory())
      ensures e.stage % 32 == id ==>
        && Memory().table == old(Memory().table)[e.tableId % 2048 := InstalledEntry(e)]
        && Memory().rows == old(Memory().rows)[e.tableId := InstalledRow(e)]
      ensures (e.stage % 32 == id ==> !old(Memory().table)[e.tableId % 2048].valid) ==> Linear()
      ensures OnWatch() && watch == Watch(old(|trace|), old(Memory()), Memory())
      ensures tue.Value().regs == Regs(Installed(e), e.tableId)
    {
      ghost var tb := Memory();
      InsertMeans(tb, e, id);
      watch := Watch(|trace|, tb, Applied(tb, Installed(e), e.tableId, id));
      WatchStarts(start, trace, watch.after);
      hide OnWatch, Resting, Recorded, Inv, Linear, Settled, Apply, QuietFor;
      hide Installed;
      code := WaitAtRest();
      if code != HalOk { return; }
      WriteInsert(e);
      code := TueCommit();
    }

    /** Invalidates an entry. No other entry and no other stage changes; the row of the deleted entry is overwritten
        with whatever action the registers still hold. */
    method HalTcamDelete(stageId: uint8, tableId: uint16) returns (code: HalCode)
      requires Valid()
      modifies Repr()
      ensures code == HalOk && Valid() && Extended()
      ensures stageId % 32 != id ==> Memory() == old(Memory())
      ensures stageId % 32 == id ==>
        && !Memory().table[tableId % 2048].valid
        && (forall i: Index :: i != tableId % 2048 ==> Memory().table[i] == old(Memory().table)[i])
        && Memory().rows == old(Memory().rows)[tableId := RowOf(old(tue.Value().regs.request))]
      ensures (stageId % 32 == id ==> !old(Memory().table)[tableId % 2048].valid) ==> Linear()
      ensures OnWatch() && watch == Watch(old(|trace|), old(Memory()), Memory())
      ensures tue.Value().regs == Targeted(old(tue.Value().regs), CMD_DELETE, tableId, stageId)
    {
      ghost var tb, r := Memory(), tue.Value().regs;
      DeleteMeans(tb, r, tableId, stageId, id);
      watch := Watch(|trace|, tb, Applied(tb, Targeted(r, CMD_DELETE, tableId, stageId).request, tableId, id));
      WatchStarts(start, trace, watch.after);
      hide OnWatch, Resting, Recorded, Inv, Linear, Settled, Apply, QuietFor, Targeted;
      code := WaitAtRest();
      if code != HalOk { return; }
      WriteTarget(CMD_DELETE, tableId, stageId);
      code := TueCommit();
    }
  }

  // ----- what traffic saw

  /** The trace of a request that found the tables quiet, with at most one change in it: there is a point before which
      every header vector leaves as the old tables say, and from which on every one leaves as the new tables say.
      Whatever happened before the request does not matter, and header vectors still in the pipeline when it ended are
      covered however the trace goes on. */
  lemma TrafficSeesOldThenNew(p: Pipe, xs: seq<Input>, ys: seq<Input>, w: Watch) returns (k: nat)
    requires QuietFrom(p, xs, w.from) && OneChange(p, xs, w) && xs <= ys
    ensures forall t :: w.from <= t + 1 && t + 2 <= |xs| && 0 <= t && t + 4 <= |ys| && ys[t].phv.Some? ==>
      var tb := if t < k then w.before else w.after;
      After(p, ys[..t + 4]).s3 ==
        Some(Process(tb.table, tb.rows, ys[t].phv.value, HashBeside(ys[t].phv.value, ys[t + 1])))
  {
    var n := SwitchPoint(p, xs, w, |xs|);
    k := n - 1;
    hide After, Process, OneChange, HashBeside;
    forall t | w.from <= t + 1 && t + 2 <= |xs| && 0 <= t && t + 4 <= |ys| && ys[t].phv.Some?
      ensures var tb := if t < k then w.before else w.after;
        After(p, ys[..t + 4]).s3 ==
          Some(Process(tb.table, tb.rows, ys[t].phv.value, HashBeside(ys[t].phv.value, ys[t + 1])))
    {
      assert ys[..t + 2] == xs[..t + 2] && ys[..t + 1] == xs[..t + 1];
      QuietPrefix(p, xs, w.from, t + 2);
      QuietRunIsLinearizable(p, ys, t);
      assert VersionAt(p, xs, t + 1) == TablesOf(Version(p, ys, t));
    }
  }

  lemma QuietPrefix(p: Pipe, xs: seq<Input>, from: nat, n: nat)
    requires QuietFrom(p, xs, from) && from < n <= |xs|
    ensures QuietFrom(p, xs[..n], n - 1)
  {
    hide After, Quiet;
    assert QuietAt(After(p, xs[..n - 1]), xs[n - 1].cfg);
    assert xs[..n][..n - 1] == xs[..n - 1] && xs[..n][n - 1] == xs[n - 1];
  }
}

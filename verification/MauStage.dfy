/** One match-action stage (rtl/mau/mau_stage.sv): key extraction, ternary lookup, action memory read, action unit,
    one clock each, with the tables rewritten beside the running pipeline. */
module MauStage {
  import opened Words
  import opened MauTcam
  import opened MauAlu
  import MauHash

  const ASRAM_DEPTH: nat := 65536

  type Rows = r: seq<Action> | |r| == 65536 witness seq(65536, _ => NO_ACTION)

  /** What the update engine drives into a stage: a write port for each of its two memories. */
  datatype Config = Config(tcam: Write, asramEn: bool, asramAddr: uint16, asramData: Action)

  /** What one clock edge samples: a header vector if one is offered, and the write ports. */
  datatype Input = Input(phv: Option<Flit>, cfg: Config)

  /** `hash` is the output register of the hash unit. */
  datatype Pipe = Pipe(
    tcam: TcamState, asram: Rows,
    key: Key, s0: Option<Flit>, s1: Option<Flit>, s2: Option<Flit>, hit2: bool, action: Action, s3: Option<Flit>,
    hash: uint32)

  /** The match key: the low 512 bits of the header vector. */
  function KeyOf(phv: Phv): Key {
    Four();
    seq(16, i requires 0 <= i < 16 => Field(phv, 4 * i, 4))
  }

  /** A byte of a key, the lowest byte of the lowest word first. */
  function KeyByte(k: Key, i: nat): uint8
    requires i < 64
  {
    var w, b := k[i / 4], i % 4;
    w / (if b == 0 then 1 else if b == 1 then 0x100 else if b == 2 then 0x1_0000 else 0x100_0000) % 256
  }

  function KeyBytesOf(k: Key): MauHash.HashKey { seq(64, i requires 0 <= i < 64 => KeyByte(k, i) as bv8) }

  const HASH_BYTES: nat := 16

  /** What the hash unit computes from a key: the CRC32 of its first sixteen bytes. */
  function HashOf(k: Key): uint32 { MauHash.Crc32(KeyBytesOf(k)[..HASH_BYTES]) as int }

  function WrittenRows(r: Rows, c: Config): Rows { if c.asramEn then r[c.asramAddr := c.asramData] else r }

  function Acted(a: Action, hit: bool, f: Option<Flit>, hash: uint32): Option<Flit> {
    match f
    case None => None
    case Some(v) => Some(Alu(a, hit, v, hash))
  }

  /** One clock edge. Every register loads from the values before the edge. */
  function Edge(p: Pipe, x: Input): Pipe {
    Pipe(
      MauTcam.Clock(p.tcam, p.key, p.s0.Some?, x.cfg.tcam),
      WrittenRows(p.asram, x.cfg),
      if x.phv.Some? then KeyOf(x.phv.value.phv) else p.key,
      x.phv, p.s0, p.s1, p.tcam.hit,
      if p.tcam.hit then p.asram[p.tcam.actionPtr] else NO_ACTION,
      Acted(p.action, p.hit2, p.s2, p.hash),
      HashOf(p.key))
  }

  class Stage {
    const tcam: Tcam
    const asram: array<Action>
    var key: Key
    var s0: Option<Flit>
    var s1: Option<Flit>
    var s2: Option<Flit>
    var hit2: bool
    var action: Action
    var s3: Option<Flit>
    var hash: uint32

    ghost predicate Valid() { tcam.Valid() && asram.Length == ASRAM_DEPTH }

    ghost function Repr(): set<object> { {this, tcam, tcam.entries, asram} }

    ghost function Value(): Pipe
      reads Repr()
      requires Valid()
    {
      Pipe(tcam.Value(), asram[..], key, s0, s1, s2, hit2, action, s3, hash)
    }

    constructor ()
      ensures Valid() && fresh(Repr())
      ensures Value().tcam.table == seq(2048, _ => BLANK)
    {
      tcam := new Tcam();
      asram := new Action[ASRAM_DEPTH](_ => NO_ACTION);
      key := seq(16, _ => 0);
      s0, s1, s2, s3 := None, None, None, None;
      hit2, action, hash := false, NO_ACTION, 0;
    }

    /** The hash unit takes the key of this clock, whether or not a header vector came with it. */
    method HashEdge()
      modifies this`hash
      ensures hash == HashOf(key)
    {
      hide KeyBytesOf, MauHash.Crc32;
      var crc := MauHash.ComputeCrc32(KeyBytesOf(key), HASH_BYTES);
      hash := crc as int;
    }

    /** The action unit and the read of the action memory, from the values before the edge. */
    method ActionEdge()
      requires Valid()
      modifies this`s3, this`s2, this`s1, this`hit2, this`action
      ensures s3 == Acted(old(action), old(hit2), old(s2), hash)
      ensures action == (if tcam.hit then asram[tcam.actionPtr] else NO_ACTION) && hit2 == tcam.hit
      ensures s2 == old(s1) && s1 == s0
    {
      hide Alu;
      s3 := match s2 { case None => None case Some(v) => Some(Alu(action, hit2, v, hash)) };
      action := if tcam.hit then asram[tcam.actionPtr] else NO_ACTION;
      hit2, s2, s1 := tcam.hit, s1, s0;
    }

    method ClockEdge(x: Input)
      requires Valid()
      modifies Repr()
      ensures Value() == Edge(old(Value()), x)
    {
      hide MauTcam.Clock, Acted, KeyOf, HashOf;
      ActionEdge();
      HashEdge();
      tcam.ClockEdge(key, s0.Some?, x.cfg.tcam);
      s0 := x.phv;
      if x.phv.Some? { key := KeyOf(x.phv.value.phv); }
      if x.cfg.asramEn { asram[x.cfg.asramAddr] := x.cfg.asramData; }
    }
  }

  // ----- what a header vector experiences

  /** The row a header vector selects, and whether any entry matched. */
  function Selected(t: Table, phv: Phv): Option<uint16> {
    match First(t, KeyOf(phv))
    case None => None
    case Some(i) => Some(t[i].actionPtr)
  }

  function ActionFor(t: Table, r: Rows, phv: Phv): Action {
    match Selected(t, phv)
    case None => NO_ACTION
    case Some(p) => r[p]
  }

  /** The stage as one atomic step over one version of its two tables. */
  function Process(t: Table, r: Rows, f: Flit, hash: uint32): Flit {
    Alu(ActionFor(t, r, f.phv), Selected(t, f.phv).Some?, f, hash)
  }

  function After(p: Pipe, xs: seq<Input>): Pipe {
    if xs == [] then p else Edge(After(p, xs[..|xs| - 1]), xs[|xs| - 1])
  }

  lemma TcamClockStep(p: Pipe, x: Input)
    requires p.s0.Some?
    ensures var q := Edge(p, x);
      && q.tcam.table == Written(p.tcam.table, x.cfg.tcam)
      && q.s1 == p.s0
      && q.tcam.hit == First(p.tcam.table, p.key).Some?
      && (q.tcam.hit ==> q.tcam.actionPtr == p.tcam.table[First(p.tcam.table, p.key).value].actionPtr)
  {
    hide FirstFrom;
  }

  /** The hash that the action of a header vector is given: the hash unit has moved on to the key of the header vector
      accepted by the next edge, if there is one. */
  function HashBeside(f: Flit, next: Input): uint32 {
    HashOf(KeyOf(match next.phv case None => f.phv case Some(g) => g.phv))
  }

  /** Four edges carry a header vector through: it is matched against the entries as they stand after the edge that
      took it in, and its action is read from the rows as they stand one edge later. */
  lemma FourEdges(p: Pipe, x0: Input, x1: Input, x2: Input, x3: Input)
    ensures var p1 := Edge(p, x0);
      var p2 := Edge(p1, x1);
      Edge(Edge(p2, x2), x3).s3 ==
        match x0.phv
        case None => None
        case Some(f) =>
          Some(Alu(ActionFor(p1.tcam.table, p2.asram, f.phv), Selected(p1.tcam.table, f.phv).Some?, f,
            HashBeside(f, x1)))
  {
    hide FirstFrom, Alu, KeyOf, HashOf;
    var p1 := Edge(p, x0);
    if x0.phv.Some? {
      TcamClockStep(p1, x1);
      hide MauTcam.Clock;
      assert p1.key == KeyOf(x0.phv.value.phv);
    }
  }

  /** The action read is the one of the tables after the accepting edge unless the next edge rewrites exactly the row
      that the header vector selected. */
  lemma ActionIsAtomicIff(p: Pipe, x: Input, phv: Phv)
    ensures ActionFor(p.tcam.table, Edge(p, x).asram, phv) == ActionFor(p.tcam.table, p.asram, phv)
       <==> !TearsFor(p, x.cfg, phv)
  {
    hide FirstFrom, MauTcam.Clock, KeyOf;
  }

  lemma TornAction(p: Pipe, x: Input, phv: Phv)
    requires TearsFor(p, x.cfg, phv)
    ensures ActionFor(p.tcam.table, Edge(p, x).asram, phv) == x.cfg.asramData && Selected(p.tcam.table, phv).Some?
  {
    hide FirstFrom, MauTcam.Clock, KeyOf;
  }

  predicate TearsFor(p: Pipe, c: Config, phv: Phv) {
    && c.asramEn && c.asramData != p.asram[c.asramAddr]
    && Selected(p.tcam.table, phv) == Some(c.asramAddr)
  }

  /** No valid entry points at the row being written, or the row already holds the data. */
  ghost predicate Quiet(t: Table, r: Rows, c: Config) {
    c.asramEn && c.asramData != r[c.asramAddr] ==>
      forall i: Index :: t[i].valid ==> t[i].actionPtr != c.asramAddr
  }

  lemma QuietNeverTears(p: Pipe, c: Config, phv: Phv)
    requires Quiet(p.tcam.table, p.asram, c)
    ensures !TearsFor(p, c, phv)
  {
    FirstIsUnique(p.tcam.table, KeyOf(phv), First(p.tcam.table, KeyOf(phv)));
    hide FirstFrom, KeyOf;
  }

  /** From some edge on every write finds the tables quiet; what was written before does not matter. */
  ghost predicate QuietFrom(p: Pipe, xs: seq<Input>, from: nat) {
    forall i :: from <= i < |xs| ==> QuietAt(After(p, xs[..i]), xs[i].cfg)
  }

  ghost predicate QuietAt(p: Pipe, c: Config) { Quiet(p.tcam.table, p.asram, c) }

  /** The table version a header vector accepted by edge `t` belongs to. */
  function Version(p: Pipe, xs: seq<Input>, t: nat): Pipe
    requires t < |xs|
  {
    After(p, xs[..t + 1])
  }

  lemma PrefixStep(p: Pipe, xs: seq<Input>, i: nat)
    requires i < |xs|
    ensures After(p, xs[..i + 1]) == Edge(After(p, xs[..i]), xs[i])
  {
    assert xs[..i + 1][..i] == xs[..i];
  }

  /** In every run, whatever is streamed in and whatever is written: the header vector accepted by edge `t` leaves three
      edges later as if the whole stage had run at once on the tables of edge `t`, unless edge `t + 1` rewrites the row
      it selected, in which case it gets the new row for its old match; and nothing leaves when nothing was accepted. */
  lemma LeavesProcessed(p: Pipe, xs: seq<Input>, t: nat)
    requires t + 4 <= |xs|
    ensures xs[t].phv.None? ==> After(p, xs[..t + 4]).s3 == None
    ensures xs[t].phv.Some? && !TearsFor(Version(p, xs, t), xs[t + 1].cfg, xs[t].phv.value.phv) ==>
      var v := Version(p, xs, t);
      After(p, xs[..t + 4]).s3 ==
        Some(Process(v.tcam.table, v.asram, xs[t].phv.value, HashBeside(xs[t].phv.value, xs[t + 1])))
    ensures xs[t].phv.Some? && TearsFor(Version(p, xs, t), xs[t + 1].cfg, xs[t].phv.value.phv) ==>
      After(p, xs[..t + 4]).s3 ==
        Some(Alu(xs[t + 1].cfg.asramData, true, xs[t].phv.value, HashBeside(xs[t].phv.value, xs[t + 1])))
  {
    PrefixStep(p, xs, t);
    PrefixStep(p, xs, t + 1);
    PrefixStep(p, xs, t + 2);
    PrefixStep(p, xs, t + 3);
    var q := After(p, xs[..t]);
    FourEdges(q, xs[t], xs[t + 1], xs[t + 2], xs[t + 3]);
    if xs[t].phv.Some? {
      ActionIsAtomicIff(Edge(q, xs[t]), xs[t + 1], xs[t].phv.value.phv);
      if TearsFor(Edge(q, xs[t]), xs[t + 1].cfg, xs[t].phv.value.phv) {
        TornAction(Edge(q, xs[t]), xs[t + 1], xs[t].phv.value.phv);
      }
    }
    hide Edge, TearsFor, ActionFor, Selected, Alu, HashBeside;
  }

  /** A header vector is processed atomically if only the one write of the edge after it finds the tables quiet: it sees
      the tables of the edge that accepted it, so what one of them sees, every later one sees too unless a later write
      changes it. */
  lemma QuietRunIsLinearizable(p: Pipe, xs: seq<Input>, t: nat)
    requires t + 4 <= |xs| && QuietFrom(p, xs[..t + 2], t + 1) && xs[t].phv.Some?
    ensures var v := Version(p, xs, t);
      After(p, xs[..t + 4]).s3 ==
        Some(Process(v.tcam.table, v.asram, xs[t].phv.value, HashBeside(xs[t].phv.value, xs[t + 1])))
  {
    assert xs[..t + 2][..t + 1] == xs[..t + 1];
    assert QuietAt(After(p, xs[..t + 2][..t + 1]), xs[..t + 2][t + 1].cfg);
    QuietNeverTears(Version(p, xs, t), xs[t + 1].cfg, xs[t].phv.value.phv);
    LeavesProcessed(p, xs, t);
  }
}

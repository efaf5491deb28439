/** Which header vector's hash an action of the stage uses (rtl/mau/mau_stage.sv, rtl/mau/mau_hash.sv): the hash
    register is one sub-stage ahead of the action unit. */
module StageHash {
  import opened Words
  import opened MauAlu
  import opened MauStage
  import MauHash

  /** The header bytes that are hashed. */
  function HashedBytes(phv: Phv): (b: seq<bv8>)
    ensures |b| == 16
  {
    seq(HASH_BYTES, i requires 0 <= i < HASH_BYTES => phv[i] as bv8)
  }

  /** The CRC32 of a header vector's first sixteen bytes. */
  function HeaderHash(phv: Phv): bv32 { MauHash.Crc32(HashedBytes(phv)) }

  function WordOf(a: int, b: int, c: int, d: int): int { a + 256 * (b + 256 * (c + 256 * d)) }

  lemma Peel(a: uint8, rest: nat)
    ensures (a + 256 * rest) % 256 == a && (a + 256 * rest) / 256 == rest
  {
  }

  lemma DivideAgain(w: nat)
    ensures w / 0x1_0000 == w / 0x100 / 0x100 && w / 0x100_0000 == w / 0x100 / 0x100 / 0x100
  {
  }

  lemma BytesOfWord(a: uint8, b: uint8, c: uint8, d: uint8)
    ensures var w := WordOf(a, b, c, d);
      w >= 0 && w % 256 == a && w / 0x100 % 256 == b && w / 0x1_0000 % 256 == c && w / 0x100_0000 % 256 == d
  {
    var x: nat := d;
    var y: nat := c + 256 * x;
    var z: nat := b + 256 * y;
    var w: nat := a + 256 * z;
    Peel(a, z);
    Peel(b, y);
    Peel(c, x);
    DivideAgain(w);
  }

  lemma FieldIsFourBytes(phv: Phv, o: nat)
    requires o + 4 <= PHV_BYTES
    ensures Field(phv, o, 4) == WordOf(phv[o], phv[o + 1], phv[o + 2], phv[o + 3])
  {
    assert Field(phv, o + 3, 1) == phv[o + 3];
    assert Field(phv, o + 2, 2) == phv[o + 2] + 256 * Field(phv, o + 3, 1);
    assert Field(phv, o + 1, 3) == phv[o + 1] + 256 * Field(phv, o + 2, 2);
  }

  lemma KeyWord(phv: Phv, n: nat)
    requires n < 16
    ensures KeyOf(phv)[n] == Field(phv, 4 * n, 4)
  {
    hide Field;
  }

  lemma KeyByteIsHeaderByte(phv: Phv, i: nat)
    requires i < 64
    ensures KeyByte(KeyOf(phv), i) == phv[i]
  {
    hide Field, KeyOf, Pow2, WordOf;
    var n := i / 4;
    KeyWord(phv, n);
    FieldIsFourBytes(phv, 4 * n);
    BytesOfWord(phv[4 * n], phv[4 * n + 1], phv[4 * n + 2], phv[4 * n + 3]);
    assert i == 4 * n + i % 4;
  }

  lemma HashOfHeader(phv: Phv)
    ensures HashOf(KeyOf(phv)) == HeaderHash(phv) as int
  {
    hide KeyByte, KeyOf, MauHash.Crc32, Pow2;
    forall i | 0 <= i < HASH_BYTES ensures KeyBytesOf(KeyOf(phv))[..HASH_BYTES][i] == phv[i] as bv8 {
      KeyByteIsHeaderByte(phv, i);
    }
    assert KeyBytesOf(KeyOf(phv))[..HASH_BYTES] == HashedBytes(phv);
  }

  /** Edge `t` accepts a header vector whose action stores the hash in a 32-bit field, and the next edge does not
      rewrite that action. */
  ghost predicate StoresHash(p: Pipe, xs: seq<Input>, t: nat)
    requires t + 4 <= |xs|
  {
    && xs[t].phv.Some?
    && var v := Version(p, xs, t);
      var f := xs[t].phv.value;
      var a := ActionFor(v.tcam.table, v.asram, f.phv);
      && !TearsFor(v, xs[t + 1].cfg, f.phv)
      && Selected(v.tcam.table, f.phv).Some? && a.Op() == OP_HASH_SET && a.Width() != 2 && a.DstOff() + 4 <= PHV_BYTES
  }

  /** The field of the header vector that leaves three edges later. */
  function Stored(p: Pipe, xs: seq<Input>, t: nat): Option<nat>
    requires t + 4 <= |xs| && xs[t].phv.Some?
  {
    var v := Version(p, xs, t);
    match After(p, xs[..t + 4]).s3
    case None => None
    case Some(g) => Some(Field(g.phv, ActionFor(v.tcam.table, v.asram, xs[t].phv.value.phv).DstOff(), 4))
  }

  lemma HashSetStores(a: Action, f: Flit, hash: uint32)
    requires a.Op() == OP_HASH_SET && a.Width() != 2 && a.DstOff() + 4 <= PHV_BYTES
    ensures Field(Alu(a, true, f, hash).phv, a.DstOff(), 4) == hash
  {
    hide Alu, Field, Pow2;
    Four();
    ActionReadsBack(a, f, hash);
  }

  lemma StoredIs(p: Pipe, xs: seq<Input>, t: nat)
    requires t + 4 <= |xs| && StoresHash(p, xs, t)
    ensures Stored(p, xs, t) == Some(HashBeside(xs[t].phv.value, xs[t + 1]))
  {
    hide After, Version, TearsFor, ActionFor, Selected, Alu, HashBeside, Field, Pow2;
    var v, f := Version(p, xs, t), xs[t].phv.value;
    LeavesProcessed(p, xs, t);
    HashSetStores(ActionFor(v.tcam.table, v.asram, f.phv), f, HashBeside(f, xs[t + 1]));
  }

  /** The hash that is stored is the header vector's own if and only if no other one enters on the next edge, or that
      one has the same CRC32. */
  lemma HashIsOwnIff(p: Pipe, xs: seq<Input>, t: nat)
    requires t + 4 <= |xs| && StoresHash(p, xs, t)
    ensures Stored(p, xs, t) == Some(HeaderHash(xs[t].phv.value.phv) as int) <==>
      xs[t + 1].phv.None? || HeaderHash(xs[t + 1].phv.value.phv) == HeaderHash(xs[t].phv.value.phv)
  {
    hide Stored, HeaderHash, HashOf, KeyOf, Pow2, ActionFor, Selected, TearsFor;
    StoredIs(p, xs, t);
    BesideIs(xs[t].phv.value, xs[t + 1]);
    if xs[t + 1].phv.Some? { SameNumber(HeaderHash(xs[t + 1].phv.value.phv), HeaderHash(xs[t].phv.value.phv)); }
    hide HashBeside;
  }

  lemma BesideIs(f: Flit, next: Input)
    ensures HashBeside(f, next) ==
      match next.phv case None => HeaderHash(f.phv) as int case Some(g) => HeaderHash(g.phv) as int
  {
    hide HashOf, KeyOf, HeaderHash;
    HashOfHeader(f.phv);
    if next.phv.Some? { HashOfHeader(next.phv.value.phv); }
  }

  lemma SameNumber(a: bv32, b: bv32)
    ensures a as int == b as int <==> a == b
  {
    if a as int == b as int { assert (a as int) as bv32 == (b as int) as bv32; }
  }

  lemma HashesDiffer(f: Phv, g: Phv, k: nat, len: nat)
    requires len <= 4 && k + len <= HASH_BYTES && HashedBytes(f) != HashedBytes(g)
    requires HashedBytes(f)[..k] == HashedBytes(g)[..k] && HashedBytes(f)[k + len..] == HashedBytes(g)[k + len..]
    ensures HeaderHash(f) != HeaderHash(g)
  {
    hide MauHash.Crc32, HashedBytes;
    if HeaderHash(f) == HeaderHash(g) { MauHash.CrcSeparatesWindow(HashedBytes(f), HashedBytes(g), k, len); }
  }

  /** So of two header vectors back to back whose hashed bytes differ only inside four consecutive ones, the first
      leaves with the hash of the second, which is never its own. */
  lemma BackToBackTakesNeighboursHash(p: Pipe, xs: seq<Input>, t: nat, k: nat, len: nat)
    requires t + 4 <= |xs| && StoresHash(p, xs, t) && xs[t + 1].phv.Some?
    requires len <= 4 && k + len <= HASH_BYTES
    requires var f, g := HashedBytes(xs[t].phv.value.phv), HashedBytes(xs[t + 1].phv.value.phv);
      f != g && f[..k] == g[..k] && f[k + len..] == g[k + len..]
    ensures Stored(p, xs, t) == Some(HeaderHash(xs[t + 1].phv.value.phv) as int)
    ensures Stored(p, xs, t) != Some(HeaderHash(xs[t].phv.value.phv) as int)
  {
    hide Stored, HeaderHash, HashedBytes, HashBeside, ActionFor, Selected, TearsFor, Version, Pow2;
    var f, g := xs[t].phv.value.phv, xs[t + 1].phv.value.phv;
    HashesDiffer(f, g, k, len);
    StoredIs(p, xs, t);
    BesideIs(xs[t].phv.value, xs[t + 1]);
    SameNumber(HeaderHash(f), HeaderHash(g));
  }
}

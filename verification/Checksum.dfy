/** The incremental IPv4 checksum of the deparser (rtl/deparser/deparser.sv; section 3 of RFC 1624). */
module Checksum {
  import opened Words

  function Not16(x: uint16): uint16 { 0xFFFF - x }

  /** Bit 16 of a 17-bit sum added to its low sixteen bits, in sixteen bits. */
  function FoldOnce(sum: nat): uint16 { (sum % 0x1_0000 + sum / 0x1_0000) % 0x1_0000 }

  /** The wires of gen_hdr: one's complement sums of 16-bit words, each carry folded back in once. */
  function NewChecksum(oldCsum: uint16, oldWord: uint16, newWord: uint16): uint16 {
    var a: int, b: int := Not16(oldCsum), Not16(oldWord);
    var tmp: int := FoldOnce(a + b);
    Not16(FoldOnce(tmp + newWord))
  }

  /** TTL in the high byte, protocol in the low byte; the TTL is decremented in 8 bits. */
  function DecrementTtl(word: uint16): uint16 {
    (word / 256 + 255) % 256 * 256 + word % 256
  }

  /** One hop less, 0 becoming 255, and the protocol as it was. */
  lemma TtlIsDecremented(word: uint16)
    ensures var w := DecrementTtl(word);
      w % 256 == word % 256 && w / 256 == if word / 256 == 0 then 255 else word / 256 - 1
  {
  }

  // ----- the definition to compare with: the checksum computed from scratch

  /** Adds the carries back in until sixteen bits are left. */
  function Fold(x: nat): uint16 {
    if x < 0x1_0000 then x else Fold(x % 0x1_0000 + x / 0x1_0000)
  }

  function Sum(words: seq<uint16>): nat {
    if words == [] then 0 else Sum(words[..|words| - 1]) + words[|words| - 1]
  }

  /** The checksum of a header given its other words. */
  function Scratch(words: seq<uint16>): uint16 { Not16(Fold(Sum(words))) }

  /** The check a receiver makes: all the words and the checksum add up to all ones. */
  predicate Verifies(words: seq<uint16>, csum: uint16) {
    Fold(Sum(words) + csum) == 0xFFFF
  }

  // ----- folding takes away multiples of 0xFFFF and stops in the range 1 to 0xFFFF, or at 0 for a zero sum

  lemma {:induction false} FoldTakesMultiples(x: nat) returns (k: int)
    ensures x == Fold(x) + 0xFFFF * k
    ensures Fold(x) == 0 <==> x == 0
  {
    k := 0;
    if x >= 0x1_0000 {
      k := FoldTakesMultiples(x % 0x1_0000 + x / 0x1_0000);
      k := k + x / 0x1_0000;
    }
  }

  lemma FoldIs(x: nat, r: uint16, k: int)
    requires x > 0 && r > 0 && x == r + 0xFFFF * k
    ensures Fold(x) == r
  {
    var k' := FoldTakesMultiples(x);
    assert r - Fold(x) == 0xFFFF * (k' - k);
  }

  lemma {:induction false} SumOfUpdate(words: seq<uint16>, i: nat, w: uint16)
    requires i < |words|
    ensures Sum(words[i := w]) == Sum(words) - words[i] + w
  {
    var n := |words| - 1;
    if i < n {
      SumOfUpdate(words[..n], i, w);
      assert words[i := w][..n] == words[..n][i := w];
    } else {
      assert words[i := w][..n] == words[..n];
    }
  }

  lemma {:induction false} SumIsZero(words: seq<uint16>)
    ensures Sum(words) == 0 <==> forall i :: 0 <= i < |words| ==> words[i] == 0
  {
    if words != [] {
      var n := |words| - 1;
      SumIsZero(words[..n]);
      assert forall i :: 0 <= i < n ==> words[..n][i] == words[i];
    }
  }

  /** Sixteen bits never overflow in the fold: the sum of two 16-bit words is at most 0x1FFFE. */
  lemma FoldOnceTakesMultiple(sum: nat) returns (k: int)
    requires sum <= 0x1FFFE
    ensures sum == FoldOnce(sum) + 0xFFFF * k
    ensures FoldOnce(sum) == 0 <==> sum == 0
  {
    k := sum / 0x1_0000;
  }

  /** The updated sum, as the hardware folds it, is never zero once the word has had its TTL decremented. */
  lemma NewChecksumTakesMultiples(oldCsum: uint16, oldWord: uint16) returns (k: int)
    ensures var r := Not16(NewChecksum(oldCsum, oldWord, DecrementTtl(oldWord)));
      r > 0 && 0xFFFF - oldCsum - oldWord + DecrementTtl(oldWord) == r + 0xFFFF * k
  {
    var a: int, b: int, m: int := Not16(oldCsum), Not16(oldWord), DecrementTtl(oldWord);
    var k1 := FoldOnceTakesMultiple(a + b);
    var tmp: int := FoldOnce(a + b);
    var k2 := FoldOnceTakesMultiple(tmp + m);
    if tmp == 0 { AllOnesDecremented(oldWord); }
    hide FoldOnce, DecrementTtl;
    k := k1 + k2 - 1;
  }

  lemma AllOnesDecremented(word: uint16)
    ensures word == 0xFFFF ==> DecrementTtl(word) == 0xFEFF
  {
  }

  ghost predicate SomeNonzero(words: seq<uint16>) {
    exists j :: 0 <= j < |words| && words[j] != 0
  }

  lemma UpdatedSum(words: seq<uint16>, i: nat, csum: uint16) returns (k: int)
    requires i < |words| && Verifies(words, csum)
    ensures var m := DecrementTtl(words[i]);
      var r := Not16(NewChecksum(csum, words[i], m));
      r > 0 && Sum(words[i := m]) == r + 0xFFFF * k
  {
    var k1 := NewChecksumTakesMultiples(csum, words[i]);
    var k2 := FoldTakesMultiples(Sum(words) + csum);
    SumOfUpdate(words, i, DecrementTtl(words[i]));
    k := k1 + k2;
  }

  /** For any header a receiver accepts, of any length, the checksum after the TTL decrement equals the one computed
      from scratch exactly when the new header has a nonzero word. */
  lemma IncrementalMatchesScratch(words: seq<uint16>, i: nat, csum: uint16)
    requires i < |words| && Verifies(words, csum)
    ensures var m := DecrementTtl(words[i]);
      NewChecksum(csum, words[i], m) == Scratch(words[i := m]) <==> SomeNonzero(words[i := m])
  {
    var m := DecrementTtl(words[i]);
    var out: seq<uint16> := words[i := m];
    var k := UpdatedSum(words, i, csum);
    SumIsZero(out);
    if Sum(out) > 0 { FoldIs(Sum(out), Not16(NewChecksum(csum, words[i], m)), k); }
  }

  /** So it does whenever some other word is nonzero, as in every real header. */
  lemma OtherWordNonzero(words: seq<uint16>, i: nat, csum: uint16, j: nat)
    requires i < |words| && Verifies(words, csum)
    requires j < |words| && j != i && words[j] != 0
    ensures NewChecksum(csum, words[i], DecrementTtl(words[i])) == Scratch(words[i := DecrementTtl(words[i])])
  {
    IncrementalMatchesScratch(words, i, csum);
    assert words[i := DecrementTtl(words[i])][j] != 0;
  }

  /** And then the next receiver accepts the rewritten header. */
  lemma RewrittenHeaderVerifies(words: seq<uint16>, i: nat, csum: uint16)
    requires i < |words| && Verifies(words, csum)
    ensures var m := DecrementTtl(words[i]);
      Verifies(words[i := m], NewChecksum(csum, words[i], m)) <==> SomeNonzero(words[i := m])
  {
    var m := DecrementTtl(words[i]);
    var out: seq<uint16> := words[i := m];
    var k := UpdatedSum(words, i, csum);
    SumIsZero(out);
    var c: int := NewChecksum(csum, words[i], m);
    if Sum(out) > 0 { FoldIs(Sum(out) + c, 0xFFFF, k); }
  }

  /** The checksum computed from scratch is always accepted. */
  lemma ScratchVerifies(words: seq<uint16>)
    ensures Verifies(words, Scratch(words))
  {
    var k := FoldTakesMultiples(Sum(words));
    var c: int := Scratch(words);
    if Sum(words) > 0 {
      assert Sum(words) + c == 0xFFFF + 0xFFFF * k;
      FoldIs(Sum(words) + c, 0xFFFF, k);
    } else {
      NothingToFold();
    }
  }

  lemma NothingToFold()
    ensures Fold(0) == 0 && Fold(0xFFFF) == 0xFFFF
  {
  }
}

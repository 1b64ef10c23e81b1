/**
 The checksum of ARM flash image footers (compute_crc in CA57-code/u-boot/cmd/armflash.c): an
 end-around-carry sum of 32-bit words, complemented. The footer stores the checksum of its other words
 among the summed words, so that a sound footer sums to zero.
 */
module FlashCrc {
  import opened BitWords

  const ALL_ONES: nat := 0xFFFF_FFFF

  function Sum(words: seq<Word>): nat {
    if words == [] then 0 else Sum(words[..|words| - 1]) + words[|words| - 1]
  }

  /** A sum folded into a word: zero only for zero. */
  function Folded(n: nat): (r: Word) {
    if n == 0 then 0 else if n % ALL_ONES == 0 then ALL_ONES else n % ALL_ONES
  }

  function Crc(words: seq<Word>): Word {
    ALL_ONES - Folded(Sum(words))
  }

  /** One addition as the C code does it, modulo `2^32`, with the carry added first. */
  function AddWithCarry(sum: Word, val: Word): Word {
    var carried := if val > ALL_ONES - sum then (sum + 1) % 0x1_0000_0000 else sum;
    (carried + val) % 0x1_0000_0000
  }

  lemma AddFolds(n: nat, val: Word)
    ensures AddWithCarry(Folded(n), val) == Folded(n + val)
  {
  }

  /** `compute_crc`; `words` are the words at the address, as many as `len` bytes hold. */
  method ComputeCrc(words: seq<Word>, len: nat) returns (crc: Word)
    requires len < 0x8000_0000 && |words| == len / 4
    ensures crc == if len % 4 != 0 then 0 else Crc(words)
  {
    if len % 4 != 0 { return 0; }
    var sum: Word := 0;
    var i := 0;
    while i < len
      invariant 0 <= i <= len && i % 4 == 0 && sum == Folded(Sum(words[..i / 4]))
    {
      var val := words[i / 4];
      assert words[..i / 4 + 1][..i / 4] == words[..i / 4];
      AddFolds(Sum(words[..i / 4]), val);
      if val > ALL_ONES - sum { sum := (sum + 1) % 0x1_0000_0000; }
      sum := (sum + val) % 0x1_0000_0000;
      i := i + 4;
    }
    assert words[..i / 4] == words;
    return ALL_ONES - sum;
  }

  // ---- order of words

  lemma {:induction false} SumConcat(a: seq<Word>, b: seq<Word>)
    ensures Sum(a + b) == Sum(a) + Sum(b)
  {
    if b == [] {
      assert a + b == a;
    } else {
      SumConcat(a, b[..|b| - 1]);
      assert (a + b)[..|a + b| - 1] == a + b[..|b| - 1];
    }
  }

  lemma SumInsert(a: seq<Word>, w: Word, b: seq<Word>)
    ensures Sum(a + [w] + b) == Sum(a + b) + w
  {
    SumConcat(a + [w], b);
    SumConcat(a, [w]);
    SumConcat(a, b);
    assert [w][..0] == [];
  }

  lemma MultisetParts(left: seq<Word>, w: Word, right: seq<Word>)
    ensures multiset(left + right) == multiset(left + [w] + right) - multiset{w}
  {
  }

  lemma SplitAt(words: seq<Word>, k: nat)
    requires k < |words|
    ensures words == words[..k] + [words[k]] + words[k + 1..]
  {
  }

  lemma {:induction false} SumOfSameWords(a: seq<Word>, b: seq<Word>)
    requires multiset(a) == multiset(b)
    ensures Sum(a) == Sum(b)
    decreases |a|, 1
  {
    if a == [] {
      assert |multiset(b)| == 0;
    } else {
      var w, front := a[|a| - 1], a[..|a| - 1];
      assert a == front + [w] + [] && front + [] == front;
      assert w in multiset(a) && w in multiset(b);
      var k :| 0 <= k < |b| && b[k] == w;
      SplitAt(b, k);
      SumOfRearranged(front, w, b[..k], b[k + 1..]);
    }
  }

  lemma {:induction false} SumOfRearranged(front: seq<Word>, w: Word, left: seq<Word>, right: seq<Word>)
    requires multiset(front + [w]) == multiset(left + [w] + right)
    ensures Sum(front + [w]) == Sum(left + [w] + right)
    decreases |front| + 1, 0
  {
    MultisetParts(left, w, right);
    MultisetParts(front, w, []);
    assert front + [] == front && front + [w] + [] == front + [w];
    SumOfSameWords(front, left + right);
    SumInsert(left, w, right);
    SumInsert(front, w, []);
  }

  /** The checksum does not depend on the order of the words. */
  lemma CrcIgnoresOrder(a: seq<Word>, b: seq<Word>)
    requires multiset(a) == multiset(b)
    ensures Crc(a) == Crc(b)
  {
    SumOfSameWords(a, b);
  }

  // ---- the footer check

  lemma {:induction false} SumZero(words: seq<Word>)
    ensures Sum(words) == 0 <==> forall i :: 0 <= i < |words| ==> words[i] == 0
  {
    if words != [] { SumZero(words[..|words| - 1]); }
  }

  /** The checksum is zero exactly when the words are not all zero and add up to a multiple of 2^32 - 1. */
  lemma CrcZeroMeans(words: seq<Word>)
    ensures Crc(words) == 0 <==> Sum(words) % ALL_ONES == 0 && exists i :: 0 <= i < |words| && words[i] != 0
  {
    SumZero(words);
  }

  /** The checksum is the complement of the sum reduced modulo 2^32 - 1, with zero only for all-zero words. */
  lemma CrcIsComplement(words: seq<Word>)
    ensures var reduced := 0xFFFF_FFFF - Crc(words);
            && reduced % 0xFFFF_FFFF == Sum(words) % 0xFFFF_FFFF
            && (reduced == 0 <==> forall i :: 0 <= i < |words| ==> words[i] == 0)
  {
    SumZero(words);
  }

  lemma MultipleOfOnes(s: nat, w: Word)
    ensures Folded(s + w) == ALL_ONES <==> w == ALL_ONES - Folded(s) || (Folded(s) == ALL_ONES && w == ALL_ONES)
  {
  }

  /**
   A word stored anywhere among the others makes the check succeed exactly when it is their checksum; if
   that is zero, the word of all ones does as well.
   */
  lemma FooterCheckAcceptsChecksum(a: seq<Word>, w: Word, b: seq<Word>)
    ensures Crc(a + [w] + b) == 0 <==> w == Crc(a + b) || (Crc(a + b) == 0 && w == ALL_ONES)
  {
    SumInsert(a, w, b);
    MultipleOfOnes(Sum(a + b), w);
  }

  /**
   In a footer that passes the check, the change of one word is noticed, except between all zeros and all
   ones while some other word is not zero.
   */
  lemma FooterCheckNoticesChange(a: seq<Word>, w: Word, w': Word, b: seq<Word>)
    requires Crc(a + [w] + b) == 0 && w' != w
    ensures Crc(a + [w'] + b) == 0 <==>
            ((w == 0 && w' == ALL_ONES) || (w == ALL_ONES && w' == 0))
            && exists i :: 0 <= i < |a + b| && (a + b)[i] != 0
  {
    FooterCheckAcceptsChecksum(a, w, b);
    FooterCheckAcceptsChecksum(a, w', b);
    SumZero(a + b);
  }
}

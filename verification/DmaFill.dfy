/**
 Clearing memory by four DMA channels in parallel, or by the processor (exec_fillDMA and exec_fill_sram
 in CortexR7_Loader/common/dma_driver.c). Only the ranges the channels are programmed with are modelled.
 */
module DmaFill {
  import opened BitWords

  const DMA_PARALLEL_CH: nat := 4
  /** Channels transfer in units of 64 bytes. */
  const UNIT: nat := 64

  type Byte8 = b: nat | b < 0x100

  /** `~(uint32_t)((1U << RDMTCR_CNT_SHIFT) - 1U)`. */
  const UNIT_MASK: nat := 0xFFFF_FFC0

  lemma {:induction false} AndOnes(a: nat, n: nat)
    requires a < Pow2(n)
    ensures And(a, Pow2(n) - 1) == a
  {
    if a != 0 {
      AndOnes(a / 2, n - 1);
      assert (Pow2(n) - 1) / 2 == Pow2(n - 1) - 1;
    }
  }

  /** `a` with its `k` lowest bits cleared. */
  function Floor(a: nat, k: nat): nat {
    if k == 0 then a else 2 * Floor(a / 2, k - 1)
  }

  /** Masking with ones above the `k` lowest bits clears these. */
  lemma {:induction false} MaskClearsLow(a: nat, n: nat, k: nat)
    requires a < Pow2(n) && k <= n
    ensures Pow2(k) <= Pow2(n) && And(a, Pow2(n) - Pow2(k)) == Floor(a, k)
  {
    if k == 0 {
      AndOnes(a, n);
    } else {
      MaskClearsLow(a / 2, n - 1, k - 1);
      if a == 0 { FloorOfZero(k); }
      if n == k { FloorOfSmall(a, k); }
      assert (Pow2(n) - Pow2(k)) / 2 == Pow2(n - 1) - Pow2(k - 1);
    }
  }

  lemma {:induction false} FloorOfZero(k: nat)
    ensures Floor(0, k) == 0
  {
    if k > 0 { FloorOfZero(k - 1); }
  }

  lemma {:induction false} FloorOfSmall(a: nat, k: nat)
    requires a < Pow2(k)
    ensures Floor(a, k) == 0
  {
    if k > 0 { FloorOfSmall(a / 2, k - 1); }
  }

  lemma FloorBySix(a: nat)
    ensures Floor(a, 6) == a / 64 * 64
  {
    assert Floor(a / 32, 1) == 2 * (a / 64);
    assert Floor(a / 16, 2) == 4 * (a / 64);
    assert Floor(a / 8, 3) == 8 * (a / 64);
    assert Floor(a / 4, 4) == 16 * (a / 64);
    assert Floor(a / 2, 5) == 32 * (a / 64);
  }

  /** Masking rounds down to a whole number of units. */
  lemma MaskRoundsDown(a: Word)
    ensures And(a, UNIT_MASK) == a / UNIT * UNIT
  {
    Width32();
    assert Pow2(6) == 64;
    MaskClearsLow(a, WIDTH, 6);
    FloorBySix(a);
  }

  function RoundUp(n: nat): nat { (n + UNIT - 1) / UNIT * UNIT }

  lemma RoundUpIs(n: nat, q: nat, r: nat)
    requires n == 64 * q + r && r < 64
    ensures RoundUp(n) == if r == 0 then 64 * q else 64 * q + 64
  {
    assert n + 63 == if r == 0 then 64 * q + 63 else 64 * (q + 1) + (r - 1);
  }

  /** The length of the first three channels. */
  function Share(len: Word): nat { len / DMA_PARALLEL_CH / UNIT * UNIT }

  /** It is a quarter of the length, less what is no whole unit. */
  lemma ShareIsUnits(len: Word)
    ensures Share(len) % 64 == 0 && Share(len) <= len / 4 < Share(len) + 64
  {
  }

  /** What the four channels fill together. */
  function Filled(len: Word): nat
    requires len >= 256
  {
    4 * Share(len) + RoundUp(len % Share(len))
  }

  /** The lengths for which the remainder by one share is the remainder by all four. */
  predicate Covers(len: Word) {
    len >= 1024 || 256 <= len < 320 || 512 <= len < 640 || 768 <= len < 960
  }

  lemma SmallRemainder(len: Word, d: nat)
    requires d > 0 && 4 * d <= len < 5 * d
    ensures len % d == len - 4 * d
  {
    var r := len - 4 * d;
    assert len == 4 * d + r;
    Quotient(len, d, 4, r);
  }

  lemma Quotient(a: nat, d: nat, q: nat, r: nat)
    requires d > 0 && r < d && q == 4 && a == 4 * d + r
    ensures a % d == r
  {
    var k := a / d;
    assert a == k * d + a % d;
    assert k >= 5 ==> k * d >= 5 * d;
    assert k <= 3 ==> k * d <= 3 * d;
  }

  lemma RoundUpAfterUnits(e: nat, r: nat)
    ensures RoundUp(64 * e + r) == 64 * e + RoundUp(r)
  {
    RoundUpIs(r, r / 64, r % 64);
    RoundUpIs(64 * e + r, e + r / 64, r % 64);
  }

  lemma LargeLength(len: Word)
    requires len >= 1024
    ensures Filled(len) == RoundUp(len)
  {
    var e := len / DMA_PARALLEL_CH / UNIT;
    var d := Share(len);
    assert d == 64 * e && d >= 256 && 4 * d <= len < 4 * d + 256;
    SmallRemainder(len, d);
    RoundUpAfterUnits(4 * e, len - 4 * d);
  }

  lemma Rest64(len: nat)
    requires 256 <= len < 512
    ensures 256 + RoundUp(len % 64) == RoundUp(len) <==> len < 320
  {
    assert len % 64 == if len < 320 then len - 256 else if len < 384 then len - 320
                       else if len < 448 then len - 384 else len - 448;
  }

  lemma ShareOf64(len: Word)
    requires 256 <= len < 512
    ensures Filled(len) == RoundUp(len) <==> len < 320
  {
    assert Share(len) == 64;
    Rest64(len);
  }

  lemma Rest128(len: nat)
    requires 512 <= len < 768
    ensures 512 + RoundUp(len % 128) == RoundUp(len) <==> len < 640
  {
    assert len % 128 == if len < 640 then len - 512 else if len < 768 then len - 640 else len - 768;
  }

  lemma ShareOf128(len: Word)
    requires 512 <= len < 768
    ensures Filled(len) == RoundUp(len) <==> len < 640
  {
    assert Share(len) == 128;
    Rest128(len);
  }

  lemma Rest192(len: nat)
    requires 768 <= len < 1024
    ensures 768 + RoundUp(len % 192) == RoundUp(len) <==> len < 960
  {
    assert len % 192 == if len < 960 then len - 768 else if len < 1152 then len - 960 else len - 1152;
  }

  lemma ShareOf192(len: Word)
    requires 768 <= len < 1024
    ensures Filled(len) == RoundUp(len) <==> len < 960
  {
    assert Share(len) == 192;
    Rest192(len);
  }

  /**
   The channels together fill the requested length, rounded up to whole units, exactly for these
   lengths. Below 256 bytes the share is zero and the remainder is undefined.
   */
  lemma FilledExactly(len: Word)
    requires len >= 256
    ensures Filled(len) == RoundUp(len) <==> Covers(len)
  {
    if len >= 1024 { LargeLength(len); }
    else if len >= 768 { ShareOf192(len); }
    else if len >= 512 { ShareOf128(len); }
    else { ShareOf64(len); }
  }

  /** A length whose last third is not filled. */
  lemma ShortFillExample()
    ensures Filled(384) == 256 && RoundUp(384) == 384 && !Covers(384)
  {
    assert Share(384) == 64;
  }

  /** The sizes for which both paths of `exec_fill_sram` clear the same range. */
  predicate PathsAgree(size: Word) {
    (Covers(size) && size % UNIT == 0) || 320 < size < 328
  }

  lemma ShortOfUnits(size: nat)
    ensures RoundUp(size) == size / 8 * 8 <==> size % UNIT == 0
    ensures size % UNIT == 0 ==> RoundUp(size) == size
  {
    var q, r := size / 64, size % 64;
    RoundUpIs(size, q, r);
    EightsOf(size, q, r);
  }

  lemma EightsOf(n: nat, q: nat, r: nat)
    requires n == 64 * q + r && r < 64
    ensures n / 8 * 8 == 64 * q + r / 8 * 8
  {
    assert n == 8 * (8 * q + r / 8) + r % 8;
  }

  lemma Uncovered192(size: Word)
    requires 960 <= size < 1024
    ensures Filled(size) <= 832 < size / 8 * 8
  {
    assert Share(size) == 192 && size % 192 == size - 960;
    RoundUpIs(size - 960, 0, size - 960);
  }

  lemma Uncovered128(size: Word)
    requires 640 <= size < 768
    ensures Filled(size) < size / 8 * 8
  {
    var r := size - 640;
    assert Share(size) == 128 && size % 128 == r;
    RoundUpIs(r, r / 64, r % 64);
    EightsOf(size, 10 + r / 64, r % 64);
  }

  lemma Uncovered64(size: Word)
    requires 320 <= size < 512
    ensures Filled(size) == size / 8 * 8 <==> 320 < size < 328
  {
    var q, r := size / 64, size % 64;
    assert Share(size) == 64;
    RoundUpIs(r, 0, r);
    EightsOf(size, q, r);
  }

  lemma UncoveredShares(size: Word)
    requires size >= 256 && !Covers(size)
    ensures Filled(size) == size / 8 * 8 <==> 320 < size < 328
  {
    if size >= 768 { Uncovered192(size); }
    else if size >= 512 { Uncovered128(size); }
    else { Uncovered64(size); }
  }

  /**
   The processor and the channels clear the same range exactly for these sizes; among them are all whole
   units from 1 KB on, which are cleared exactly.
   */
  lemma PathsAgreeExactly(size: Word)
    requires size >= 256
    ensures Filled(size) == size / 8 * 8 <==> PathsAgree(size)
    ensures Covers(size) && size % UNIT == 0 ==> Filled(size) == size
  {
    FilledExactly(size);
    ShortOfUnits(size);
    if !Covers(size) { UncoveredShares(size); }
  }

  /** The zero source lies in the area, by its low 32 bits, so that the processor has to clear it. */
  predicate ByCpu(saddr: nat, size: Word, fillData: nat) {
    var low := saddr % 0x1_0000_0000;
    low <= fillData % 0x1_0000_0000 < (low + size) % 0x1_0000_0000
  }

  /** What `exec_fill_sram` clears. */
  function Cleared(saddr: nat, size: Word, fillData: nat): nat
    requires ByCpu(saddr, size, fillData) || size >= 256
  {
    if ByCpu(saddr, size, fillData) then size / 8 * 8 else Filled(size)
  }

  /** A power of two from 4 KB on is cleared exactly, whichever path clears it. */
  lemma PowersOfTwoAreCleared(k: nat, saddr: nat, fillData: nat)
    requires 12 <= k < 32
    ensures 4096 <= Pow2(k) < 0x1_0000_0000 && Cleared(saddr, Pow2(k), fillData) == Pow2(k)
  {
    PowersOfTwoAreCovered(k);
    PathsAgreeExactly(Pow2(k));
  }

  lemma {:induction false} PowersOfTwoAreCovered(k: nat)
    requires 12 <= k < 32
    ensures 4096 <= Pow2(k) < 0x1_0000_0000 && Pow2(k) % UNIT == 0 && Covers(Pow2(k))
    decreases k
  {
    if k == 12 {
      assert Pow2(6) == 64;
      assert Pow2(12) == 4096;
    } else {
      PowersOfTwoAreCovered(k - 1);
      Fits(k);
    }
  }

  lemma {:induction false} Fits(k: nat)
    requires k < 32
    ensures 2 * Pow2(k) <= 0x1_0000_0000
    decreases 32 - k
  {
    Width32();
    if k < 31 { Fits(k + 1); }
  }

  /** Where channel `k` starts, and for `k == 4` where the last one ends. */
  function Boundary(dst: nat, len: Word, k: nat): nat
    requires len >= 256 && k <= DMA_PARALLEL_CH
  {
    if k == 0 then dst else if k < DMA_PARALLEL_CH then Boundary(dst, len, k - 1) + Share(len) else dst + Filled(len)
  }

  lemma {:induction false} BoundaryIsProduct(dst: nat, len: Word, k: nat)
    requires len >= 256 && k < DMA_PARALLEL_CH
    ensures Boundary(dst, len, k) == dst + Share(len) * k
  {
    if k > 0 { BoundaryIsProduct(dst, len, k - 1); }
  }

  lemma LastBoundary(dst: nat, len: Word)
    requires len >= 256
    ensures Boundary(dst, len, 4) == Boundary(dst, len, 3) + Share(len) + RoundUp(len % Share(len))
  {
    BoundaryIsProduct(dst, len, 3);
  }

  lemma BoundaryWithin(dst: nat, len: Word, k: nat)
    requires len >= 256 && k <= DMA_PARALLEL_CH
    ensures dst <= Boundary(dst, len, k) <= dst + Filled(len)
  {
    if k < DMA_PARALLEL_CH { BoundaryIsProduct(dst, len, k); }
  }

  /** The two maskings of `exec_fillDMA`. */
  lemma FirstLength(len: Word)
    requires len >= 256
    ensures And(len / DMA_PARALLEL_CH, UNIT_MASK) == Share(len) > 0
    ensures And(len % Share(len) + UNIT - 1, UNIT_MASK) == RoundUp(len % Share(len))
  {
    MaskRoundsDown(len / DMA_PARALLEL_CH);
    MaskRoundsDown(len % Share(len) + UNIT - 1);
  }

  // ---- the driver

  /** `[at, at + n)` is zero and the rest as before. */
  predicate Zeroed(before: seq<Byte8>, after: seq<Byte8>, at: nat, n: nat) {
    && |after| == |before|
    && forall i :: 0 <= i < |after| ==> after[i] == if at <= i < at + n then 0 else before[i]
  }

  class Sram {
    const mem: array<Byte8>

    constructor (size: nat)
      ensures mem.Length == size && fresh(mem)
    {
      mem := new Byte8[size](_ => 0);
    }

    /** A channel's transfer of zeros. */
    method Transfer(at: nat, n: nat)
      requires at + n <= mem.Length
      modifies mem
      ensures Zeroed(old(mem[..]), mem[..], at, n)
    {
      forall i | at <= i < at + n { mem[i] := 0; }
    }

    /** The ranges that `exec_fillDMA` programs: they follow each other without gap or overlap. */
    method PlanFill(dst: nat, len: Word) returns (dmadst: array<nat>, dmalen: array<nat>)
      requires len >= 256
      ensures fresh(dmadst) && fresh(dmalen) && dmadst.Length == dmalen.Length == DMA_PARALLEL_CH && dmadst != dmalen
      ensures forall k :: 0 <= k < DMA_PARALLEL_CH ==>
        dmadst[k] == Boundary(dst, len, k) && dmadst[k] + dmalen[k] == Boundary(dst, len, k + 1)
      ensures forall k :: 0 <= k < 3 ==> dmalen[k] % 64 == 0 && dmalen[k] <= len / 4 < dmalen[k] + 64
    {
      FirstLength(len);
      ShareIsUnits(len);
      var share := And(len / DMA_PARALLEL_CH, UNIT_MASK);
      var rest := And(len % share + UNIT - 1, UNIT_MASK);
      dmadst, dmalen := Partition(dst, share, rest);
      forall k | 0 <= k < DMA_PARALLEL_CH
        ensures dmadst[k] == Boundary(dst, len, k) && dmadst[k] + dmalen[k] == Boundary(dst, len, k + 1)
      {
        BoundaryIsProduct(dst, len, k);
        LastBoundary(dst, len);
      }
    }

    /** Lines 237-245: four shares in a row, the last one longer by `rest`. */
    method Partition(dst: nat, share: nat, rest: nat) returns (dmadst: array<nat>, dmalen: array<nat>)
      ensures fresh(dmadst) && fresh(dmalen) && dmadst.Length == dmalen.Length == DMA_PARALLEL_CH && dmadst != dmalen
      ensures forall k :: 0 <= k < DMA_PARALLEL_CH ==> dmadst[k] == dst + share * k
      ensures forall k :: 0 <= k < DMA_PARALLEL_CH ==> dmalen[k] == if k < 3 then share else share + rest
    {
      dmadst, dmalen := new nat[DMA_PARALLEL_CH](_ => 0), new nat[DMA_PARALLEL_CH](_ => 0);
      dmalen[0], dmadst[0] := share, dst;
      var loop := 1;
      while loop < DMA_PARALLEL_CH
        invariant 1 <= loop <= DMA_PARALLEL_CH
        invariant forall k :: 0 <= k < loop ==> dmalen[k] == share && dmadst[k] == dst + share * k
      {
        dmalen[loop] := dmalen[0];
        dmadst[loop] := dmadst[0] + dmalen[0] * loop;
        loop := loop + 1;
      }
      dmalen[DMA_PARALLEL_CH - 1] := dmalen[DMA_PARALLEL_CH - 1] + rest;
    }

    /** `exec_fillDMA`: the channels clear one contiguous range. */
    method ExecFillDma(dst: nat, len: Word)
      requires len >= 256 && dst + Filled(len) <= mem.Length
      modifies mem
      ensures Zeroed(old(mem[..]), mem[..], dst, Filled(len))
    {
      var dmadst, dmalen := PlanFill(dst, len);
      var ch := 0;
      BoundaryWithin(dst, len, 0);
      while ch < DMA_PARALLEL_CH
        invariant 0 <= ch <= DMA_PARALLEL_CH && dst <= Boundary(dst, len, ch)
        invariant forall k :: 0 <= k < DMA_PARALLEL_CH ==>
          dmadst[k] == Boundary(dst, len, k) && dmadst[k] + dmalen[k] == Boundary(dst, len, k + 1)
        invariant Zeroed(old(mem[..]), mem[..], dst, Boundary(dst, len, ch) - dst)
      {
        BoundaryWithin(dst, len, ch + 1);
        Transfer(dmadst[ch], dmalen[ch]);
        ch := ch + 1;
      }
    }

    /** The processor's path of `exec_fill_sram`: eight bytes at a time. */
    method FillByCpu(saddr: nat, size: Word)
      requires saddr + size / 8 * 8 <= mem.Length
      modifies mem
      ensures Zeroed(old(mem[..]), mem[..], saddr, size / 8 * 8)
    {
      var i := 0;
      while i < size / 8
        invariant 0 <= i <= size / 8 && Zeroed(old(mem[..]), mem[..], saddr, i * 8)
      {
        Transfer(saddr + i * 8, 8);
        i := i + 1;
      }
    }

    /** `exec_fill_sram`, for a zero source at `fillData`. */
    method ExecFillSram(saddr: nat, size: Word, fillData: nat)
      requires ByCpu(saddr, size, fillData) || size >= 256
      requires saddr + Cleared(saddr, size, fillData) <= mem.Length
      modifies mem
      ensures Zeroed(old(mem[..]), mem[..], saddr, Cleared(saddr, size, fillData))
    {
      var low := saddr % 0x1_0000_0000;
      if fillData % 0x1_0000_0000 >= low && fillData % 0x1_0000_0000 < (low + size) % 0x1_0000_0000 {
        FillByCpu(saddr, size);
      } else {
        ExecFillDma(saddr, size);
      }
    }
  }
}

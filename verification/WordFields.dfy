/** Single bits and bytes of 32-bit words, and what the read-modify-writes of C do to them. */
module WordFields {
  import opened BitWords

  /** `~mask`. */
  function Not32(mask: Word): Word {
    Width32();
    Not(mask, WIDTH)
  }

  /** `(r >> (i << 3)) & 0xff`. */
  function Byte(r: Word, i: nat): nat {
    And(Shr(r, 8 * i), 0xFF)
  }

  /** `r | (1U << i)`. */
  function SetBit(r: Word, i: nat): Word
    requires i < 32
  {
    Width32();
    BitInWord(i);
    OrBelow(r, Pow2(i), WIDTH);
    Or(r, Pow2(i))
  }

  /** `r & ~(1U << i)`. */
  function ClearBit(r: Word, i: nat): Word
    requires i < 32
  {
    BitInWord(i);
    AndBelow(r, Not32(Pow2(i)));
    And(r, Not32(Pow2(i)))
  }

  /** `(r & ~(0xff << s)) | ((v & 0xff) << s)` for byte `i`. */
  function SetByte(r: Word, i: nat, v: nat): Word
    requires i < 4 && v <= 0xFF
  {
    ByteInWord(i, 0xFF);
    AndBelow(v, 0xFF);
    ByteInWord(i, And(v, 0xFF));
    AndBelow(r, Not32(Shl(0xFF, 8 * i)));
    Width32();
    OrBelow(And(r, Not32(Shl(0xFF, 8 * i))), Shl(And(v, 0xFF), 8 * i), WIDTH);
    Or(And(r, Not32(Shl(0xFF, 8 * i))), Shl(And(v, 0xFF), 8 * i))
  }

  /** `r | (v << s)` for byte `i`. */
  function OrByte(r: Word, i: nat, v: nat): Word
    requires i < 4 && v <= 0xFF
  {
    ByteInWord(i, v);
    Width32();
    OrBelow(r, Shl(v, 8 * i), WIDTH);
    Or(r, Shl(v, 8 * i))
  }

  // ---- fields of results

  lemma {:induction false} BitInWord(i: nat)
    requires i < 32
    ensures Pow2(i) < 0x1_0000_0000
  {
    Pow2Monotone(i, 31);
    Width32();
  }

  lemma {:induction false} ShlBelow(v: nat, k: nat, s: nat)
    requires v < Pow2(k)
    ensures Shl(v, s) < Pow2(k + s)
  {
    if s > 0 { ShlBelow(v, k, s - 1); }
  }

  lemma ByteInWord(i: nat, v: nat)
    requires i < 4 && v <= 0xFF
    ensures Shl(v, 8 * i) < 0x1_0000_0000
  {
    assert Pow2(8) == 0x100;
    ShlBelow(v, 8, 8 * i);
    Pow2Monotone(8 + 8 * i, 32);
    Width32();
  }

  lemma SetBitBit(r: Word, i: nat, j: nat)
    requires i < 32
    ensures Bit(SetBit(r, i), j) <==> i == j || Bit(r, j)
  {
    OrBit(r, Pow2(i), j);
    Pow2Bit(i, j);
  }

  lemma ClearBitBit(r: Word, i: nat, j: nat)
    requires i < 32 && j < 32
    ensures Bit(ClearBit(r, i), j) <==> i != j && Bit(r, j)
  {
    BitInWord(i);
    Width32();
    AndBit(r, Not32(Pow2(i)), j);
    NotBit(Pow2(i), WIDTH, j);
    Pow2Bit(i, j);
  }

  lemma Not32Bit(r: Word, j: nat)
    requires j < 32
    ensures Bit(Not32(r), j) <==> !Bit(r, j)
  {
    Width32();
    NotBit(r, WIDTH, j);
  }

  lemma ByteBit(r: Word, k: nat, b: nat)
    ensures Bit(Byte(r, k), b) <==> b < 8 && Bit(r, 8 * k + b)
  {
    AndBit(Shr(r, 8 * k), 0xFF, b);
    LowByteBit(b);
    ShrBit(r, 8 * k, b);
  }

  lemma LowByteBit(b: nat)
    ensures Bit(0xFF, b) <==> b < 8
  {
    assert Pow2(8) == 0x100;
    OnesBit(8, b);
  }

  lemma SmallByteBit(v: nat, b: nat)
    requires v <= 0xFF
    ensures Bit(And(v, 0xFF), b) <==> Bit(v, b)
    ensures Bit(v, b) ==> b < 8
  {
    AndBit(v, 0xFF, b);
    LowByteBit(b);
    assert Pow2(8) == 0x100;
    if b >= 8 { HighBit(v, 8, b); }
  }

  /** The bits of a word after a byte was set in it. */
  lemma SetByteBits(r: Word, i: nat, v: nat, k: nat, b: nat)
    requires i < 4 && k < 4 && v <= 0xFF && b < 8
    ensures Bit(SetByte(r, i, v), 8 * k + b) <==> if k == i then Bit(v, b) else Bit(r, 8 * k + b)
  {
    var at, mask, low := 8 * k + b, Shl(0xFF, 8 * i), And(v, 0xFF);
    ByteInWord(i, 0xFF);
    Width32();
    OrBit(And(r, Not32(mask)), Shl(low, 8 * i), at);
    AndBit(r, Not32(mask), at);
    NotBit(mask, WIDTH, at);
    ShlBit(0xFF, 8 * i, at);
    ShlBit(low, 8 * i, at);
    if at >= 8 * i {
      LowByteBit(at - 8 * i);
      SmallByteBit(v, at - 8 * i);
    }
  }

  /** Setting a byte sets it and leaves the others alone. */
  lemma SetByteByte(r: Word, i: nat, v: nat, k: nat)
    requires i < 4 && k < 4 && v <= 0xFF
    ensures Byte(SetByte(r, i, v), k) == if k == i then v else Byte(r, k)
  {
    var w := SetByte(r, i, v);
    var expected := if k == i then v else Byte(r, k);
    forall b: nat ensures Bit(Byte(w, k), b) <==> Bit(expected, b) {
      ByteBit(w, k, b);
      ByteBit(r, k, b);
      SmallByteBit(v, b);
      if b < 8 { SetByteBits(r, i, v, k, b); }
    }
    SameBits(Byte(w, k), expected);
  }

  /** Or-ing a byte adds bits to it and leaves the others alone. */
  lemma OrByteByte(r: Word, i: nat, v: nat, k: nat)
    requires i < 4 && k < 4 && v <= 0xFF
    ensures Byte(OrByte(r, i, v), k) == if k == i then Or(Byte(r, k), v) else Byte(r, k)
  {
    var w := OrByte(r, i, v);
    var expected := if k == i then Or(Byte(r, k), v) else Byte(r, k);
    forall b: nat ensures Bit(Byte(w, k), b) <==> Bit(expected, b) {
      ByteBit(w, k, b);
      ByteBit(r, k, b);
      OrBit(Byte(r, k), v, b);
      SmallByteBit(v, b);
      var at := 8 * k + b;
      OrBit(r, Shl(v, 8 * i), at);
      ShlBit(v, 8 * i, at);
      if at >= 8 * i { SmallByteBit(v, at - 8 * i); }
    }
    SameBits(Byte(w, k), expected);
  }

  /** The four bytes of a word, as numbers. */
  lemma BytesOfWord(r: Word)
    ensures Byte(r, 0) == r % 0x100 && Byte(r, 1) == r / 0x100 % 0x100
    ensures Byte(r, 2) == r / 0x1_0000 % 0x100 && Byte(r, 3) == r / 0x100_0000 % 0x100
  {
    ShrByte(r, 8);
    ShrByte(r, 16);
    ShrByte(r / 256, 8);
    ShrByte(r, 24);
    ShrByte(r / 256, 16);
    ShrByte(r / 256 / 256, 8);
    MaskIsRemainder(r);
    MaskIsRemainder(r / 256);
    MaskIsRemainder(r / 256 / 256);
    MaskIsRemainder(r / 256 / 256 / 256);
    assert r / 256 / 256 == r / 0x1_0000 && r / 256 / 256 / 256 == r / 0x100_0000;
  }

  /** `GICD_IPRIORITYR_DEF_VAL`: the priority `pri` in all four bytes. */
  function FourBytes(pri: nat): Word
    requires pri <= 0xFF
  {
    OrByte(OrByte(OrByte(OrByte(0, 0, pri), 1, pri), 2, pri), 3, pri)
  }

  lemma FourBytesByte(pri: nat, k: nat)
    requires k < 4 && pri <= 0xFF
    ensures Byte(FourBytes(pri), k) == pri
  {
    var w0 := OrByte(0, 0, pri);
    var w1 := OrByte(w0, 1, pri);
    var w2 := OrByte(w1, 2, pri);
    ZeroByte(k);
    OrByteByte(0, 0, pri, k);
    OrByteByte(w0, 1, pri, k);
    OrByteByte(w1, 2, pri, k);
    OrByteByte(w2, 3, pri, k);
  }

  lemma ZeroByte(k: nat)
    ensures Byte(0, k) == 0
  {
    forall b: nat ensures Bit(Byte(0, k), b) <==> Bit(0, b) {
      ByteBit(0, k, b);
      ZeroBit(b);
      ZeroBit(8 * k + b);
    }
    SameBits(Byte(0, k), 0);
  }

  lemma AllOnes(j: nat)
    requires j < 32
    ensures Bit(0xFFFF_FFFF, j)
  {
    Width32();
    OnesBit(WIDTH, j);
  }
}

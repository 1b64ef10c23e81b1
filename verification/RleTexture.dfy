/**
 Run-length decoding of textures (2d-wow-cluster-demo/src/misc/texture.c). The packets are those of the
 run-length encoded image types of the Truevision TGA File Format Specification, version 2.0: a header
 byte with the pixel count less one in its low seven bits and a flag for a repeated pixel.
 */
module RleTexture {
  import opened BitWords
  import opened WordFields

  type Byte8 = b: nat | b < 0x100

  /** Source memory: every address reads as some byte, also beyond the compressed data. */
  type Memory = nat -> Byte8

  function Bytes(mem: Memory, at: nat, n: nat): (r: seq<Byte8>)
    ensures |r| == n
  {
    if n == 0 then [] else Bytes(mem, at, n - 1) + [mem(at + n - 1)]
  }

  function Repeat(pixel: seq<Byte8>, n: nat): seq<Byte8> {
    if n == 0 then [] else Repeat(pixel, n - 1) + pixel
  }

  /** The bytes of `n` pixels. */
  function Span(n: nat, bpp: nat): nat {
    if n == 0 then 0 else Span(n - 1, bpp) + bpp
  }

  function Less(size: nat, n: nat): nat { if size >= n then size - n else 0 }

  /** What is written, and the source address after the last byte that was consumed. */
  datatype Decoded = Decoded(out: seq<Byte8>, end: nat)

  /** What one packet writes, the source address after it, and how many bytes of input remain. */
  datatype Step = Step(out: seq<Byte8>, end: nat, left: nat)

  /** The packet at `src`, of which `size` bytes remain. A run of one pixel is not charged for its pixel. */
  function PacketAt(mem: Memory, src: nat, size: nat, bpp: nat): (s: Step)
    requires size > 1
    ensures s.left < size && s.end > src
  {
    var n := mem(src) % 128 + 1;
    if mem(src) < 128 then
      Step(Bytes(mem, src + 1, Span(n, bpp)), src + 1 + Span(n, bpp), Less(size - 1, Span(n, bpp)))
    else
      Step(Repeat(Bytes(mem, src + 1, bpp), n), src + 1 + bpp, if n == 1 then size - 1 else Less(size - 1, bpp))
  }

  /** The decoder packet by packet: `size` bytes of input remain at `src`. */
  function Decode(mem: Memory, src: nat, size: nat, bpp: nat): Decoded
    decreases size
  {
    if size == 0 then Decoded([], src)
    else if size == 1 then Decoded([], src + 1)
    else
      var s := PacketAt(mem, src, size, bpp);
      var rest := Decode(mem, s.end, s.left, bpp);
      Decoded(s.out + rest.out, rest.end)
  }

  // ---- packets

  datatype Packet = Raw(pixels: seq<seq<Byte8>>) | Run(pixel: seq<Byte8>, count: nat)

  predicate PacketOk(p: Packet, bpp: nat) {
    match p
    case Raw(pixels) => 1 <= |pixels| <= 128 && forall i :: 0 <= i < |pixels| ==> |pixels[i]| == bpp
    case Run(pixel, count) => 1 <= count <= 128 && |pixel| == bpp
  }

  function Join(pixels: seq<seq<Byte8>>): seq<Byte8> {
    if pixels == [] then [] else pixels[0] + Join(pixels[1..])
  }

  function Pixels(p: Packet): seq<Byte8> {
    match p
    case Raw(pixels) => Join(pixels)
    case Run(pixel, count) => Repeat(pixel, count)
  }

  function Encode(p: Packet, bpp: nat): seq<Byte8>
    requires PacketOk(p, bpp)
  {
    match p
    case Raw(pixels) => [|pixels| - 1] + Join(pixels)
    case Run(pixel, count) => [127 + count] + pixel
  }

  ghost predicate PacketsOk(ps: seq<Packet>, bpp: nat) {
    forall i :: 0 <= i < |ps| ==> PacketOk(ps[i], bpp)
  }

  function EncodeAll(ps: seq<Packet>, bpp: nat): seq<Byte8>
    requires PacketsOk(ps, bpp)
  {
    if ps == [] then [] else Encode(ps[0], bpp) + EncodeAll(ps[1..], bpp)
  }

  function PixelsAll(ps: seq<Packet>): seq<Byte8> {
    if ps == [] then [] else Pixels(ps[0]) + PixelsAll(ps[1..])
  }

  predicate IsSingle(p: Packet) { p.Run? && p.count == 1 }

  /** The bytes that runs of one pixel leave uncharged. */
  function Uncharged(ps: seq<Packet>, bpp: nat): (n: nat)
    ensures bpp > 0 ==> (n == 0 <==> forall i :: 0 <= i < |ps| ==> !IsSingle(ps[i]))
  {
    if ps == [] then 0
    else
      assert ps == [ps[0]] + ps[1..];
      Owed(ps[0], bpp) + Uncharged(ps[1..], bpp)
  }

  // ---- round trip

  lemma {:induction false} JoinLength(pixels: seq<seq<Byte8>>, bpp: nat)
    requires forall i :: 0 <= i < |pixels| ==> |pixels[i]| == bpp
    ensures |Join(pixels)| == Span(|pixels|, bpp)
  {
    if pixels != [] {
      JoinLength(pixels[1..], bpp);
    }
  }

  /** Memory holds `data` at `at`. */
  ghost predicate Holds(mem: Memory, at: nat, data: seq<Byte8>) {
    Bytes(mem, at, |data|) == data
  }

  lemma {:induction false} BytesAt(mem: Memory, at: nat, n: nat, i: nat)
    requires i < n
    ensures Bytes(mem, at, n)[i] == mem(at + i)
  {
    if i < n - 1 { BytesAt(mem, at, n - 1, i); }
  }

  lemma HoldsParts(mem: Memory, at: nat, a: seq<Byte8>, b: seq<Byte8>)
    requires Holds(mem, at, a + b)
    ensures Holds(mem, at, a) && Holds(mem, at + |a|, b)
  {
    var all := Bytes(mem, at, |a| + |b|);
    forall i | 0 <= i < |a| ensures Bytes(mem, at, |a|)[i] == a[i] {
      BytesAt(mem, at, |a|, i);
      BytesAt(mem, at, |a| + |b|, i);
      assert all[i] == a[i];
    }
    forall i | 0 <= i < |b| ensures Bytes(mem, at + |a|, |b|)[i] == b[i] {
      BytesAt(mem, at + |a|, |b|, i);
      BytesAt(mem, at, |a| + |b|, |a| + i);
      assert all[|a| + i] == b[i];
    }
  }

  /** `d` starts with `out` and goes on like `rest`. */
  ghost predicate Continues(d: Decoded, out: seq<Byte8>, rest: Decoded) {
    d == Decoded(out + rest.out, rest.end)
  }

  lemma ContinuesTwice(d: Decoded, a: seq<Byte8>, middle: Decoded, b: seq<Byte8>, rest: Decoded)
    requires Continues(d, a, middle) && Continues(middle, b, rest)
    ensures Continues(d, a + b, rest)
  {
    assert a + (b + rest.out) == (a + b) + rest.out;
  }

  lemma ContinuesPrefix(d: Decoded, out: seq<Byte8>, rest: Decoded)
    requires Continues(d, out, rest)
    ensures out <= d.out && d.end == rest.end
  {
  }

  function Owed(p: Packet, bpp: nat): nat { if IsSingle(p) then bpp else 0 }

  lemma RawAt(mem: Memory, src: nat, pixels: seq<seq<Byte8>>, size: nat, bpp: nat, n: nat)
    requires bpp > 0 && PacketOk(Raw(pixels), bpp) && mem(src) == |pixels| - 1 && Holds(mem, src + 1, Join(pixels))
    requires n == |Join(pixels)| && size > n
    ensures n > 0 && PacketAt(mem, src, size, bpp) == Step(Join(pixels), src + 1 + n, size - 1 - n)
  {
    JoinLength(pixels, bpp);
    assert mem(src) % 128 + 1 == |pixels|;
  }

  lemma RunAt(mem: Memory, src: nat, p: Packet, size: nat, bpp: nat)
    requires bpp > 0 && p.Run? && PacketOk(p, bpp) && mem(src) == 127 + p.count && Holds(mem, src + 1, p.pixel)
    requires size > bpp
    ensures PacketAt(mem, src, size, bpp)
         == Step(Repeat(p.pixel, p.count), src + 1 + bpp, size - 1 - bpp + Owed(p, bpp))
  {
    assert mem(src) % 128 + 1 == p.count;
  }

  /** One packet is decoded to its pixels and consumed; a single-pixel run leaves its pixel uncharged. */
  lemma DecodePacket(mem: Memory, src: nat, p: Packet, size: nat, bpp: nat, end: nat, left: nat)
    requires bpp > 0 && PacketOk(p, bpp) && Holds(mem, src, Encode(p, bpp)) && size >= |Encode(p, bpp)|
    requires end == src + |Encode(p, bpp)| && left == size - |Encode(p, bpp)| + Owed(p, bpp)
    ensures size > 1 && PacketAt(mem, src, size, bpp) == Step(Pixels(p), end, left)
  {
    HeaderAndBody(mem, src, p, bpp);
    match p
    case Raw(pixels) =>
      JoinLength(pixels, bpp);
      RawAt(mem, src, pixels, size, bpp, |Join(pixels)|);
    case Run(_, _) => RunAt(mem, src, p, size, bpp);
  }

  lemma DecodeStep(mem: Memory, src: nat, size: nat, bpp: nat, s: Step)
    requires size > 1 && PacketAt(mem, src, size, bpp) == s
    ensures Continues(Decode(mem, src, size, bpp), s.out, Decode(mem, s.end, s.left, bpp))
  {
  }

  lemma HeaderAndBody(mem: Memory, src: nat, p: Packet, bpp: nat)
    requires PacketOk(p, bpp) && Holds(mem, src, Encode(p, bpp))
    ensures mem(src) == Encode(p, bpp)[0] && Holds(mem, src + 1, if p.Raw? then Join(p.pixels) else p.pixel)
  {
    var code := Encode(p, bpp);
    HoldsParts(mem, src, [code[0]], if p.Raw? then Join(p.pixels) else p.pixel);
    BytesAt(mem, src, 1, 0);
  }

  lemma DecodeFirst(mem: Memory, src: nat, p: Packet, size: nat, bpp: nat, src1: nat, size1: nat, tail: seq<Byte8>,
                    rest: Decoded)
    requires bpp > 0 && PacketOk(p, bpp) && Holds(mem, src, Encode(p, bpp)) && size >= |Encode(p, bpp)|
    requires src1 == src + |Encode(p, bpp)| && size1 == size - |Encode(p, bpp)| + Owed(p, bpp)
    requires Continues(Decode(mem, src1, size1, bpp), tail, rest)
    ensures Continues(Decode(mem, src, size, bpp), Pixels(p) + tail, rest)
  {
    DecodePacket(mem, src, p, size, bpp, src1, size1);
    DecodeStep(mem, src, size, bpp, Step(Pixels(p), src1, size1));
    ContinuesTwice(Decode(mem, src, size, bpp), Pixels(p), Decode(mem, src1, size1, bpp), tail, rest);
  }

  /** `ps` are decoded to their pixels; the decoder goes on at `end` with `left` bytes. */
  lemma {:induction false} DecodePackets(mem: Memory, src: nat, ps: seq<Packet>, size: nat, bpp: nat, end: nat,
                                         left: nat)
    requires bpp > 0 && PacketsOk(ps, bpp) && Holds(mem, src, EncodeAll(ps, bpp)) && size >= |EncodeAll(ps, bpp)|
    requires end == src + |EncodeAll(ps, bpp)| && left == size - |EncodeAll(ps, bpp)| + Uncharged(ps, bpp)
    ensures Continues(Decode(mem, src, size, bpp), PixelsAll(ps), Decode(mem, end, left, bpp))
    decreases |ps|
  {
    var rest := Decode(mem, end, left, bpp);
    if ps == [] {
      assert [] + rest.out == rest.out;
    } else {
      var first := Encode(ps[0], bpp);
      HoldsParts(mem, src, first, EncodeAll(ps[1..], bpp));
      var src1, size1 := src + |first|, size - |first| + Owed(ps[0], bpp);
      DecodePackets(mem, src1, ps[1..], size1, bpp, end, left);
      DecodeFirst(mem, src, ps[0], size, bpp, src1, size1, PixelsAll(ps[1..]), rest);
    }
  }

  lemma {:induction false} DecodeConsumes(mem: Memory, src: nat, size: nat, bpp: nat)
    ensures Decode(mem, src, size, bpp).end >= src && (size > 0 ==> Decode(mem, src, size, bpp).end > src)
    decreases size
  {
    if size > 1 {
      var s := PacketAt(mem, src, size, bpp);
      DecodeConsumes(mem, s.end, s.left, bpp);
    }
  }

  /** Without single-pixel runs, exactly the pixels are written and exactly the data is consumed. */
  lemma DecodesExactly(mem: Memory, src: nat, ps: seq<Packet>, bpp: nat, len: nat)
    requires bpp > 0 && PacketsOk(ps, bpp) && Holds(mem, src, EncodeAll(ps, bpp)) && len == |EncodeAll(ps, bpp)|
    requires forall i :: 0 <= i < |ps| ==> !IsSingle(ps[i])
    ensures Decode(mem, src, len, bpp) == Decoded(PixelsAll(ps), src + len)
  {
    DecodePackets(mem, src, ps, len, bpp, src + len, 0);
    assert PixelsAll(ps) + [] == PixelsAll(ps);
  }

  /** With one, the pixels are written too, but the decoder reads on beyond the data. */
  lemma SinglesReadOn(mem: Memory, src: nat, ps: seq<Packet>, bpp: nat, len: nat)
    requires bpp > 0 && PacketsOk(ps, bpp) && Holds(mem, src, EncodeAll(ps, bpp)) && len == |EncodeAll(ps, bpp)|
    requires Uncharged(ps, bpp) > 0
    ensures var d := Decode(mem, src, len, bpp); PixelsAll(ps) <= d.out && d.end > src + len
  {
    var more := Uncharged(ps, bpp);
    DecodePackets(mem, src, ps, len, bpp, src + len, more);
    ReadsOn(Decode(mem, src, len, bpp), PixelsAll(ps), mem, src + len, more, bpp);
  }

  lemma ReadsOn(d: Decoded, out: seq<Byte8>, mem: Memory, end: nat, more: nat, bpp: nat)
    requires Continues(d, out, Decode(mem, end, more, bpp)) && more > 0
    ensures out <= d.out && d.end > end
  {
    DecodeConsumes(mem, end, more, bpp);
    ContinuesPrefix(d, out, Decode(mem, end, more, bpp));
  }

  /**
   Every packetisation of an image is decoded to its pixels. The source is consumed exactly when no
   packet is a run of one pixel, and then nothing else is written; each such run makes the decoder read
   on beyond the data.
   */
  lemma RoundTrip(mem: Memory, src: nat, ps: seq<Packet>, bpp: nat)
    requires bpp > 0 && PacketsOk(ps, bpp) && Holds(mem, src, EncodeAll(ps, bpp))
    ensures var len := |EncodeAll(ps, bpp)|;
            var d := Decode(mem, src, len, bpp);
            var noSingles := forall i :: 0 <= i < |ps| ==> !IsSingle(ps[i]);
            && PixelsAll(ps) <= d.out
            && (d.end == src + len <==> noSingles)
            && (noSingles ==> d.out == PixelsAll(ps))
  {
    var len := |EncodeAll(ps, bpp)|;
    if Uncharged(ps, bpp) == 0 { DecodesExactly(mem, src, ps, bpp, len); }
    else { SinglesReadOn(mem, src, ps, bpp, len); }
  }

  // ---- the decoder

  lemma {:induction false} BytesSplit(mem: Memory, at: nat, a: nat, b: nat)
    ensures Bytes(mem, at, a + b) == Bytes(mem, at, a) + Bytes(mem, at + a, b)
    decreases b
  {
    if b > 0 {
      BytesSplit(mem, at, a, b - 1);
      assert Bytes(mem, at, a) + (Bytes(mem, at + a, b - 1) + [mem(at + a + b - 1)])
          == (Bytes(mem, at, a) + Bytes(mem, at + a, b - 1)) + [mem(at + a + b - 1)];
    }
  }

  /** The pixel gathered in a word, lowest byte first, by `value |= *Src << (tmp << 3)`. */
  method GatherPixel(mem: Memory, src: nat, bpp: nat) returns (value: Word)
    requires bpp <= 4
    ensures forall k :: 0 <= k < bpp ==> Byte(value, k) == mem(src + k)
  {
    value := 0;
    var tmp := 0;
    forall k | 0 <= k < 4 ensures Byte(value, k) == 0 { ZeroByte(k); }
    while tmp < bpp
      invariant 0 <= tmp <= bpp
      invariant forall k :: 0 <= k < tmp ==> Byte(value, k) == mem(src + k)
      invariant forall k :: tmp <= k < 4 ==> Byte(value, k) == 0
    {
      ghost var before := value;
      value := OrByte(value, tmp, mem(src + tmp));
      forall k | 0 <= k < 4
        ensures Byte(value, k) == if k == tmp then Or(Byte(before, k), mem(src + tmp)) else Byte(before, k)
      {
        OrByteByte(before, tmp, mem(src + tmp), k);
      }
      tmp := tmp + 1;
    }
  }

  /** `loc_D2DWritePixel`: words and half words are stored little-endian, other sizes byte by byte. */
  method WritePixel(mem: Memory, src: nat, bpp: nat, before: seq<Byte8>) returns (out: seq<Byte8>)
    ensures out == before + Bytes(mem, src, bpp)
  {
    if bpp == 4 {
      var value := GatherPixel(mem, src, 4);
      assert Byte(value, 0) == mem(src) && Byte(value, 1) == mem(src + 1);
      assert Byte(value, 2) == mem(src + 2) && Byte(value, 3) == mem(src + 3);
      out := before + [Byte(value, 0), Byte(value, 1), Byte(value, 2), Byte(value, 3)];
      assert [mem(src), mem(src + 1), mem(src + 2), mem(src + 3)] == Bytes(mem, src, 4) by { FourBytesOf(mem, src); }
    } else if bpp == 2 {
      var value := GatherPixel(mem, src, 2);
      assert Byte(value, 0) == mem(src) && Byte(value, 1) == mem(src + 1);
      out := before + [Byte(value, 0), Byte(value, 1)];
      assert [mem(src), mem(src + 1)] == Bytes(mem, src, 2) by { TwoBytesOf(mem, src); }
    } else {
      out := before;
      var tmp := bpp;
      while tmp > 0
        invariant 0 <= tmp <= bpp && out == before + Bytes(mem, src, bpp - tmp)
      {
        out := out + [mem(src + (bpp - tmp))];
        tmp := tmp - 1;
      }
    }
  }

  lemma TwoBytesOf(mem: Memory, src: nat)
    ensures Bytes(mem, src, 2) == [mem(src), mem(src + 1)]
  {
    assert Bytes(mem, src, 1) == [mem(src)];
  }

  lemma FourBytesOf(mem: Memory, src: nat)
    ensures Bytes(mem, src, 4) == [mem(src), mem(src + 1), mem(src + 2), mem(src + 3)]
  {
    TwoBytesOf(mem, src);
    assert Bytes(mem, src, 3) == [mem(src), mem(src + 1), mem(src + 2)];
  }

  /** `out` is written, and `size` bytes remain at `src`, on the way to `total`. */
  ghost predicate Underway(total: Decoded, out: seq<Byte8>, mem: Memory, src: nat, size: nat, bpp: nat) {
    Continues(total, out, Decode(mem, src, size, bpp))
  }

  lemma Begins(mem: Memory, src: nat, size: nat, bpp: nat)
    ensures Underway(Decode(mem, src, size, bpp), [], mem, src, size, bpp)
  {
    assert [] + Decode(mem, src, size, bpp).out == Decode(mem, src, size, bpp).out;
  }

  /** The last byte of the input is a header without pixels, or nothing remains. */
  lemma Ends(total: Decoded, out: seq<Byte8>, mem: Memory, src: nat, size: nat, bpp: nat)
    requires Underway(total, out, mem, src, size, bpp) && size <= 1
    ensures total == Decoded(out, src + size)
  {
    assert out + [] == out;
  }

  /** `locDecompressRLE`: what it writes from its destination on, and where its source pointer ends. */
  method DecompressRle(mem: Memory, start: nat, length: nat, bpp: nat) returns (out: seq<Byte8>, src: nat)
    ensures Decoded(out, src) == Decode(mem, start, length, bpp)
  {
    ghost var total := Decode(mem, start, length, bpp);
    out, src := [], start;
    var size := length;
    Begins(mem, start, length, bpp);
    while size > 0
      invariant Underway(total, out, mem, src, size, bpp)
      decreases size
    {
      ghost var before, at, left := out, src, size;
      var tmp := mem(src);
      src := src + 1;
      size := size - 1;
      if size == 0 {
        Ends(total, out, mem, at, left, bpp);
        return;
      }
      var count, repeated := tmp % 128 + 1, tmp / 128 != 0;
      out, src, size := WritePacket(mem, src, size, bpp, count, repeated, out);
      PacketDone(total, before, mem, at, left, bpp, repeated, count, src, size);
    }
    Ends(total, out, mem, src, size, bpp);
  }

  /** The bytes of the first `k` pixels of a packet whose pixels start at `start`. */
  function Written(mem: Memory, start: nat, bpp: nat, k: nat, repeated: bool): seq<Byte8> {
    if repeated then Repeat(Bytes(mem, start, bpp), k) else Bytes(mem, start, Span(k, bpp))
  }

  lemma WrittenNext(mem: Memory, start: nat, bpp: nat, k: nat, repeated: bool)
    ensures Written(mem, start, bpp, k + 1, repeated)
         == Written(mem, start, bpp, k, repeated) + Bytes(mem, if repeated then start else start + Span(k, bpp), bpp)
  {
    if !repeated { BytesSplit(mem, start, Span(k, bpp), bpp); }
  }

  /** The remaining size after `k` of `count` pixels: a run is charged before its last pixel. */
  function Remaining(left: nat, bpp: nat, k: nat, count: nat, repeated: bool): nat {
    if !repeated then Less(left, Span(k, bpp)) else if k > 0 && k + 1 >= count > 1 then Less(left, bpp) else left
  }

  lemma RemainingNext(left: nat, bpp: nat, k: nat, count: nat, repeated: bool)
    requires k < count
    ensures Remaining(left, bpp, k + 1, count, repeated)
         == if !repeated || count - (k + 1) == 1 then Less(Remaining(left, bpp, k, count, repeated), bpp)
            else Remaining(left, bpp, k, count, repeated)
  {
  }

  /** Lines 137-155: one packet. */
  method WritePacket(mem: Memory, start: nat, left: nat, bpp: nat, count: nat, repeated: bool, before: seq<Byte8>)
    returns (out: seq<Byte8>, src: nat, size: nat)
    requires count > 0
    ensures out == before + Written(mem, start, bpp, count, repeated)
    ensures src == start + if repeated then bpp else Span(count, bpp)
    ensures size == Remaining(left, bpp, count, count, repeated)
  {
    out, src, size := before, start, left;
    var pixels := count;
    while pixels > 0
      invariant 0 <= pixels <= count
      invariant out == before + Written(mem, start, bpp, count - pixels, repeated)
      invariant src == if repeated && pixels < count then start + bpp else start + Span(count - pixels, bpp)
      invariant size == Remaining(left, bpp, count - pixels, count, repeated)
    {
      if repeated { src := start; }
      ghost var done := count - pixels;
      WrittenNext(mem, start, bpp, done, repeated);
      RemainingNext(left, bpp, done, count, repeated);
      assert before + (Written(mem, start, bpp, done, repeated) + Bytes(mem, src, bpp))
          == before + Written(mem, start, bpp, done, repeated) + Bytes(mem, src, bpp);
      out := WritePixel(mem, src, bpp, out);
      src := src + bpp;
      pixels := pixels - 1;
      if !repeated || (repeated && pixels == 1) {
        if size >= bpp { size := size - bpp; } else { size := 0; }
      }
    }
  }

  /** The packet written is the decoder's next one. */
  lemma PacketIsNext(mem: Memory, src: nat, size: nat, bpp: nat, repeated: bool, n: nat, end: nat, left: nat)
    requires size > 1 && n == mem(src) % 128 + 1 && repeated == (mem(src) / 128 != 0)
    requires end == src + 1 + (if repeated then bpp else Span(n, bpp))
    requires left == Remaining(size - 1, bpp, n, n, repeated)
    ensures PacketAt(mem, src, size, bpp) == Step(Written(mem, src + 1, bpp, n, repeated), end, left)
  {
    assert repeated <==> mem(src) >= 128;
  }

  lemma PacketDone(total: Decoded, out: seq<Byte8>, mem: Memory, src: nat, size: nat, bpp: nat, repeated: bool, n: nat,
                   end: nat, left: nat)
    requires Underway(total, out, mem, src, size, bpp) && size > 1
    requires n == mem(src) % 128 + 1 && repeated == (mem(src) / 128 != 0)
    requires end == src + 1 + (if repeated then bpp else Span(n, bpp))
    requires left == Remaining(size - 1, bpp, n, n, repeated)
    ensures Underway(total, out + Written(mem, src + 1, bpp, n, repeated), mem, end, left, bpp) && left < size
  {
    PacketIsNext(mem, src, size, bpp, repeated, n, end, left);
    StepOn(total, out, mem, src, size, bpp, PacketAt(mem, src, size, bpp));
  }

  lemma StepOn(total: Decoded, out: seq<Byte8>, mem: Memory, src: nat, size: nat, bpp: nat, s: Step)
    requires Underway(total, out, mem, src, size, bpp) && size > 1 && s == PacketAt(mem, src, size, bpp)
    ensures Underway(total, out + s.out, mem, s.end, s.left, bpp)
  {
    DecodeStep(mem, src, size, bpp, s);
    ContinuesTwice(total, out, Decode(mem, src, size, bpp), s.out, Decode(mem, s.end, s.left, bpp));
  }
}

/**
 What a caller of the firmware-update service gets: for every SMC the exact conditions of each answer, and
 what the call changes, in numbers and byte by byte. A change of the transition system that skips a check, a
 copy or a zeroing contradicts one of these lemmas.
 */
module FwuCalls {
  import opened FwuModel
  import opened FwuInvariant
  import opened FwuTheorems

  const ADDRESSES: nat := 0x1_0000_0000_0000_0000

  /** Descriptors of other images, the other listed ids, the executing image and the world are as before. */
  ghost predicate OthersKept(s: State, s1: State, id: nat) {
    && s1.desc.Keys == s.desc.Keys && (forall x :: x in s.desc && x != id ==> s1.desc[x] == s.desc[x])
    && (forall x :: x != INVALID_IMAGE_ID && x != id ==> (x in s1.loaded <==> x in s.loaded))
  }

  ghost predicate ControlKept(s: State, s1: State) { s1.secExec == s.secExec && s1.world == s.world }

  /** The `n` bytes at `at` are zero and all others are as before. */
  ghost predicate ZeroedBytes(before: seq<bv8>, after: seq<bv8>, at: nat, n: nat) {
    && |after| == |before|
    && forall i :: 0 <= i < |before| ==> after[i] == if at <= i < at + n then 0 else before[i]
  }

  /** The `n` bytes at `at` are those that were at `src`, and all others are as before. */
  ghost predicate CopiedBytes(before: seq<bv8>, after: seq<bv8>, at: nat, src: nat, n: nat) {
    && |after| == |before| && src + n <= |before|
    && forall i :: 0 <= i < |before| ==> after[i] == if at <= i < at + n then before[src + (i - at)] else before[i]
  }

  lemma WriteZeros(mem: seq<bv8>, at: nat, n: nat)
    requires at + n <= |mem|
    ensures ZeroedBytes(mem, Write(mem, at, Zeros(n)), at, n)
  {
  }

  lemma WriteRead(mem: seq<bv8>, at: nat, src: nat, n: nat)
    requires at + n <= |mem| && src + n <= |mem|
    ensures CopiedBytes(mem, Write(mem, at, Read(mem, src, n)), at, src, n)
  {
  }

  // ---- IMAGE_COPY

  predicate Named(src: nat, n: nat) { src > 0 && n > 0 && src + n <= ADDRESSES }

  /** The world, the image and its state allow a copy. */
  predicate MayCopy(p: Platform, s: State, id: nat)
    requires Typed(p, s)
  {
    s.world == NonSecure && id in p.images && p.images[id].secure
    && (s.desc[id].state == Reset || s.desc[id].state == Copying)
  }

  /** The listed id is no image that is reset, ends before it begins, or meets the bytes `[base, base + size)`. */
  predicate Harmless(p: Platform, s: State, id: nat, size: nat, slot: nat)
    requires Typed(p, s) && id in p.images
  {
    slot == INVALID_IMAGE_ID || slot == id ||
    (slot in p.images && s.desc[slot].state != Reset &&
     (s.desc[slot].imageSize == 0 ||
      var lo, hi := p.images[slot].base, (p.images[slot].base + s.desc[slot].imageSize - 1) % ADDRESSES;
      lo < hi && (hi < p.images[id].base || p.images[id].base + size <= lo)))
  }

  ghost predicate AreaClear(p: Platform, s: State, id: nat, size: nat)
    requires Typed(p, s) && id in p.images
  {
    forall k :: 0 <= k < |s.loaded| ==> Harmless(p, s, id, size, s.loaded[k])
  }

  /** What of a block is still missing in the image. */
  function Missing(p: Platform, s: State, c: Call): nat
    requires Typed(p, s) && c.ImageCopy? && c.id in p.images
  {
    if s.desc[c.id].state == Reset then c.imageSize
    else if s.desc[c.id].copiedSize <= s.desc[c.id].imageSize then s.desc[c.id].imageSize - s.desc[c.id].copiedSize
    else 0
  }

  function Clipped(p: Platform, s: State, c: Call): nat
    requires Typed(p, s) && c.ImageCopy? && c.id in p.images
  {
    if c.blockSize <= Missing(p, s, c) then c.blockSize else Missing(p, s, c)
  }

  ghost predicate SizeFits(p: Platform, s: State, c: Call)
    requires Typed(p, s) && c.ImageCopy? && c.id in p.images
  {
    s.desc[c.id].state == Reset ==> 0 < c.imageSize <= p.images[c.id].maxSize
  }

  ghost predicate AreaFits(p: Platform, s: State, c: Call)
    requires Typed(p, s) && c.ImageCopy? && c.id in p.images
  {
    s.desc[c.id].state == Reset ==> AreaClear(p, s, c.id, c.imageSize)
  }

  /** The source is mapped and the image has a slot. */
  ghost predicate Placed(p: Platform, s: State, c: Call)
    requires Typed(p, s) && c.ImageCopy? && c.id in p.images
  {
    p.mapped(c.src, Clipped(p, s, c), NonSecure) && (c.id in s.loaded || INVALID_IMAGE_ID in s.loaded)
  }

  ghost predicate CopyAccepted(p: Platform, s: State, c: Call)
    requires Typed(p, s) && c.ImageCopy?
  {
    && MayCopy(p, s, c.id) && Named(c.src, c.blockSize) && SizeFits(p, s, c) && AreaFits(p, s, c) && Placed(p, s, c)
    && (s.desc[c.id].state == Reset ==> c.preLoadOk)
  }

  lemma HarmlessIsClear(p: Platform, s: State, id: nat, size: nat, slot: nat)
    requires PlatformOk(p) && Typed(p, s) && id in p.images && p.images[id].secure && 0 < size <= p.images[id].maxSize
    ensures SlotVerdict(p, Sized(p, s, id, size), id, slot) == Clear <==> Harmless(p, s, id, size, slot)
  {
    assert p.images[id].base + p.images[id].maxSize <= p.memSize;
    NoWrap(p.images[id].base, size);
  }

  lemma ClearIsChecked(p: Platform, s: State, id: nat, size: nat)
    requires PlatformOk(p) && Typed(p, s) && id in p.images && p.images[id].secure && 0 < size <= p.images[id].maxSize
    ensures CheckOverlaps(p, Sized(p, s, id, size), id, 0) == Clear <==> AreaClear(p, s, id, size)
  {
    forall k | 0 <= k < |s.loaded|
      ensures SlotVerdict(p, Sized(p, s, id, size), id, s.loaded[k]) == Clear <==> Harmless(p, s, id, size, s.loaded[k])
    {
      HarmlessIsClear(p, s, id, size, s.loaded[k]);
    }
  }

  /** The state in which the first block is copied. */
  function SetUp(s: State, id: nat, imageSize: nat): State {
    WithDesc(s, id, Desc(Reset, imageSize, 0))
  }

  /** A first copy whose arguments are good comes to its block exactly when its area is clear. */
  lemma FirstCopyIs(p: Platform, s: State, c: Call)
    requires PlatformOk(p) && Typed(p, s) && c.ImageCopy? && MayCopy(p, s, c.id) && s.desc[c.id].state == Reset
    requires Named(c.src, c.blockSize) && SizeFits(p, s, c)
    ensures AreaFits(p, s, c) ==>
              Smc(p, s, c) == CopyBlock(p, SetUp(s, c.id, c.imageSize), c.id, c.src, c.blockSize, c.preLoadOk)
    ensures !AreaFits(p, s, c) && Smc(p, s, c).Done? ==>
              Smc(p, s, c) == Done(WithDesc(s, c.id, s.desc[c.id].(imageSize := 0)), EPERM)
  {
    ClearIsChecked(p, s, c.id, c.imageSize);
  }

  /** What `CopyBlock` answers. */
  lemma BlockAnswers(p: Platform, t: State, id: nat, src: Uintptr, blockSize: Uint32, preLoadOk: bool, n: nat)
    requires Typed(p, t) && id in p.images && t.desc[id].copiedSize < t.desc[id].imageSize
    requires n == Min(blockSize, t.desc[id].imageSize - t.desc[id].copiedSize)
    ensures var r := CopyBlock(p, t, id, src, blockSize, preLoadOk);
            var placed := p.mapped(src, n, t.world) && (id in t.loaded || INVALID_IMAGE_ID in t.loaded);
            && r.Done? && (r.code == ENOMEM <==> !placed)
            && (r.code == Success <==> placed && (t.desc[id].state == Reset ==> preLoadOk))
            && (r.code == Success || r.code == ENOMEM || r.code == EPERM)
  {
  }

  lemma BadFirstCopy(p: Platform, s: State, c: Call)
    requires Typed(p, s) && c.ImageCopy? && MayCopy(p, s, c.id) && s.desc[c.id].state == Reset
    requires !Named(c.src, c.blockSize) || !SizeFits(p, s, c)
    ensures Smc(p, s, c) == Done(s, ENOMEM)
  {
  }

  /** A first copy: all its answers. */
  lemma FirstCopyAnswers(p: Platform, s: State, c: Call)
    requires Inv(p, s) && c.ImageCopy? && MayCopy(p, s, c.id) && s.desc[c.id].state == Reset && Smc(p, s, c).Done?
    ensures var code := Smc(p, s, c).code;
            && (code == Success <==> CopyAccepted(p, s, c))
            && (code == ENOMEM <==>
                  !Named(c.src, c.blockSize) || !SizeFits(p, s, c) || (AreaFits(p, s, c) && !Placed(p, s, c)))
            && (code == Success || code == ENOMEM || code == EPERM)
  {
    if Named(c.src, c.blockSize) && SizeFits(p, s, c) {
      FirstCopyIs(p, s, c);
      BlockAnswers(p, SetUp(s, c.id, c.imageSize), c.id, c.src, c.blockSize, c.preLoadOk, Clipped(p, s, c));
    } else {
      BadFirstCopy(p, s, c);
    }
  }

  /** A continuing block: it is accepted exactly when its source can be named and what it adds is mapped. */
  lemma NextBlockAnswers(p: Platform, s: State, c: Call)
    requires Inv(p, s) && c.ImageCopy? && MayCopy(p, s, c.id) && s.desc[c.id].state == Copying
    ensures Smc(p, s, c).Done?
    ensures var code := Smc(p, s, c).code;
            && (code == Success <==> Named(c.src, c.blockSize) && p.mapped(c.src, Clipped(p, s, c), NonSecure))
            && (code == Success || code == ENOMEM)
    ensures Clipped(p, s, c) > 0 || c.blockSize == 0
  {
    assert DescOk(p, s, c.id) && c.id in s.loaded;
  }

  /**
   When a copy is accepted, and when memory or permission is refused, for every caller, image and argument;
   `CopyHaltsExactly` says when it does not return.
   */
  lemma CopyAnswers(p: Platform, s: State, c: Call)
    requires Inv(p, s) && c.ImageCopy?
    ensures CopyAccepted(p, s, c) ==> Smc(p, s, c).Done?
    ensures Smc(p, s, c).Done? ==>
              var code := Smc(p, s, c).code;
              && (code == Success <==> CopyAccepted(p, s, c))
              && (code == ENOMEM <==>
                    MayCopy(p, s, c.id)
                    && (!Named(c.src, c.blockSize) || !SizeFits(p, s, c) || (AreaFits(p, s, c) && !Placed(p, s, c))))
              && (code == Success || code == ENOMEM || code == EPERM)
  {
    if MayCopy(p, s, c.id) {
      if s.desc[c.id].state == Copying {
        NextBlockAnswers(p, s, c);
        assert c.id in s.loaded;
      } else {
        if CopyAccepted(p, s, c) { CopyIsBlock(p, s, c); }
        if Smc(p, s, c).Done? { FirstCopyAnswers(p, s, c); }
      }
    }
  }

  /** What an accepted block does: size, progress and state of the image, and every byte of memory. */
  ghost predicate BlockStored(p: Platform, s: State, c: Call, s1: State)
    requires Typed(p, s) && c.ImageCopy? && c.id in p.images
  {
    var size := if s.desc[c.id].state == Reset then c.imageSize else s.desc[c.id].imageSize;
    var done := if s.desc[c.id].state == Reset then 0 else s.desc[c.id].copiedSize;
    var n := Clipped(p, s, c);
    && c.id in s1.desc && s1.desc[c.id] == Desc(if done + n == size then Copied else Copying, size, done + n)
    && n > 0 && done + n <= size && (c.blockSize >= size - done ==> done + n == size)
    && CopiedBytes(s.mem, s1.mem, p.images[c.id].base + done, c.src, n)
    && OthersKept(s, s1, c.id) && ControlKept(s, s1) && c.id in s1.loaded
  }

  lemma StoredIs(p: Platform, s: State, id: nat, src: nat, n: nat)
    requires PlatformOk(p) && Typed(p, s) && id in p.images && p.images[id].secure && 0 < n && src + n <= p.memSize
    requires s.desc[id].copiedSize + n <= s.desc[id].imageSize <= p.images[id].maxSize
    ensures var d, s1 := s.desc[id], Stored(p, s, id, src, n);
            && s1.desc == s.desc[id := Desc(if d.copiedSize + n == d.imageSize then Copied else Copying,
                                            d.imageSize, d.copiedSize + n)]
            && CopiedBytes(s.mem, s1.mem, p.images[id].base + d.copiedSize, src, n)
            && s1.loaded == s.loaded && ControlKept(s, s1)
  {
    assert p.images[id].base + p.images[id].maxSize <= p.memSize;
    WriteRead(s.mem, p.images[id].base + s.desc[id].copiedSize, src, n);
  }

  /** Nothing stands between the block and its place: the copy of lines 321-361 succeeds. */
  lemma BlockGoesThrough(p: Platform, t: State, id: nat, src: Uintptr, blockSize: Uint32, preLoadOk: bool, n: nat)
    requires PlatformOk(p) && Typed(p, t) && id in p.images && p.images[id].secure
    requires t.desc[id].copiedSize < t.desc[id].imageSize <= p.images[id].maxSize && CanAdd(t.loaded, id)
    requires n == Min(blockSize, t.desc[id].imageSize - t.desc[id].copiedSize) && p.mapped(src, n, t.world)
    requires t.desc[id].state == Reset ==> preLoadOk
    ensures CopyBlock(p, t, id, src, blockSize, preLoadOk)
         == Done(Stored(p, t.(loaded := Added(t.loaded, id)), id, src, n), Success)
  {
  }

  /** What the copy then does to a state `t` in which size and progress are set. */
  ghost predicate Advanced(p: Platform, t: State, s1: State, id: nat, src: nat, n: nat)
    requires Typed(p, t) && id in p.images
  {
    var d := t.desc[id];
    && ControlKept(t, s1) && OthersKept(t, s1, id) && id in s1.loaded && id in s1.desc
    && s1.desc[id] == Desc(if d.copiedSize + n == d.imageSize then Copied else Copying, d.imageSize, d.copiedSize + n)
    && CopiedBytes(t.mem, s1.mem, p.images[id].base + d.copiedSize, src, n)
  }

  lemma BlockEffect(p: Platform, t: State, id: nat, src: Uintptr, blockSize: Uint32, preLoadOk: bool, n: nat)
    requires PlatformOk(p) && Typed(p, t) && id in p.images && p.images[id].secure && NoDuplicates(t.loaded)
    requires t.desc[id].copiedSize < t.desc[id].imageSize <= p.images[id].maxSize && CanAdd(t.loaded, id)
    requires n == Min(blockSize, t.desc[id].imageSize - t.desc[id].copiedSize) && n > 0 && p.mapped(src, n, t.world)
    requires t.desc[id].state == Reset ==> preLoadOk
    ensures var r := CopyBlock(p, t, id, src, blockSize, preLoadOk);
            r.Done? && r.code == Success && Advanced(p, t, r.state, id, src, n)
  {
    BlockGoesThrough(p, t, id, src, blockSize, preLoadOk, n);
    ListedAndStored(p, t, id, src, n);
  }

  lemma ListedAndStored(p: Platform, t: State, id: nat, src: nat, n: nat)
    requires PlatformOk(p) && Typed(p, t) && id in p.images && p.images[id].secure && NoDuplicates(t.loaded)
    requires CanAdd(t.loaded, id) && 0 < n && src + n <= p.memSize
    requires t.desc[id].copiedSize + n <= t.desc[id].imageSize <= p.images[id].maxSize
    ensures Advanced(p, t, Stored(p, t.(loaded := Added(t.loaded, id)), id, src, n), id, src, n)
  {
    StoredIs(p, t.(loaded := Added(t.loaded, id)), id, src, n);
    ListedOthers(t, Stored(p, t.(loaded := Added(t.loaded, id)), id, src, n), id);
  }

  lemma ListedOthers(t: State, s1: State, id: nat)
    requires NoDuplicates(t.loaded) && CanAdd(t.loaded, id) && id != INVALID_IMAGE_ID && id in t.desc && id in s1.desc
    requires s1.loaded == Added(t.loaded, id) && s1.desc == t.desc[id := s1.desc[id]]
    ensures OthersKept(t, s1, id) && id in s1.loaded
  {
    AddedKeeps(t.loaded, id);
  }

  /** The same seen from the state `s` before the call. */
  lemma AdvancedIsStored(p: Platform, s: State, c: Call, t: State, s1: State, n: nat)
    requires Typed(p, s) && Typed(p, t) && c.ImageCopy? && c.id in p.images && t == WithDesc(s, c.id, t.desc[c.id])
    requires Advanced(p, t, s1, c.id, c.src, n) && n == Clipped(p, s, c) && 0 < n
    requires t.desc[c.id].copiedSize == (if s.desc[c.id].state == Reset then 0 else s.desc[c.id].copiedSize)
    requires t.desc[c.id].imageSize == (if s.desc[c.id].state == Reset then c.imageSize else s.desc[c.id].imageSize)
    requires t.desc[c.id].copiedSize <= t.desc[c.id].imageSize
    ensures BlockStored(p, s, c, s1)
  {
  }

  /** An accepted copy is the copy of a block into the image as it is, or as it is set up for its first block. */
  lemma CopyIsBlock(p: Platform, s: State, c: Call)
    requires Inv(p, s) && c.ImageCopy? && CopyAccepted(p, s, c)
    ensures s.desc[c.id].state == Reset ==>
              Smc(p, s, c) == CopyBlock(p, SetUp(s, c.id, c.imageSize), c.id, c.src, c.blockSize, c.preLoadOk)
    ensures s.desc[c.id].state == Copying ==>
              Smc(p, s, c) == CopyBlock(p, s, c.id, c.src, c.blockSize, c.preLoadOk)
              && 0 < s.desc[c.id].copiedSize < s.desc[c.id].imageSize <= p.images[c.id].maxSize
  {
    assert DescOk(p, s, c.id);
    if s.desc[c.id].state == Reset { FirstCopyIs(p, s, c); }
  }

  /** The effect of every accepted copy. */
  lemma CopyEffect(p: Platform, s: State, c: Call)
    requires Inv(p, s) && c.ImageCopy? && CopyAccepted(p, s, c)
    ensures Smc(p, s, c).Done? && Smc(p, s, c).code == Success && BlockStored(p, s, c, Smc(p, s, c).state)
  {
    CopyIsBlock(p, s, c);
    var t := if s.desc[c.id].state == Reset then SetUp(s, c.id, c.imageSize) else s;
    assert s.desc[c.id := s.desc[c.id]] == s.desc;
    BlockEffect(p, t, c.id, c.src, c.blockSize, c.preLoadOk, Clipped(p, s, c));
    AdvancedIsStored(p, s, c, t, Smc(p, s, c).state, Clipped(p, s, c));
  }

  /** A refused block leaves the image as it is set up. */
  lemma RefusedBlock(p: Platform, t: State, id: nat, src: Uintptr, blockSize: Uint32, preLoadOk: bool)
    requires Typed(p, t) && id in p.images && id != INVALID_IMAGE_ID && NoDuplicates(t.loaded)
    requires t.desc[id].copiedSize < t.desc[id].imageSize
    requires CopyBlock(p, t, id, src, blockSize, preLoadOk).Done?
    requires CopyBlock(p, t, id, src, blockSize, preLoadOk).code != Success
    ensures var s1 := CopyBlock(p, t, id, src, blockSize, preLoadOk).state;
            s1.mem == t.mem && s1.desc == t.desc && ControlKept(t, s1) && OthersKept(t, s1, id)
  {
    if CanAdd(t.loaded, id) { AddedKeeps(t.loaded, id); }
  }

  /** Memory, control, other images and the state of the image are kept; of a begun image everything is. */
  ghost predicate Refused(s: State, s1: State, id: nat) {
    && s1.mem == s.mem && ControlKept(s, s1) && OthersKept(s, s1, id)
    && (id in s.desc ==> id in s1.desc && s1.desc[id].state == s.desc[id].state)
    && (id in s.desc && s.desc[id].state != Reset ==> s1.desc[id] == s.desc[id])
  }

  lemma RefusedFirstCopy(p: Platform, s: State, c: Call)
    requires Inv(p, s) && c.ImageCopy? && MayCopy(p, s, c.id) && s.desc[c.id].state == Reset
    requires Named(c.src, c.blockSize) && SizeFits(p, s, c) && Smc(p, s, c).Done? && Smc(p, s, c).code != Success
    ensures Refused(s, Smc(p, s, c).state, c.id)
  {
    FirstCopyIs(p, s, c);
    if AreaFits(p, s, c) {
      RefusedBlock(p, SetUp(s, c.id, c.imageSize), c.id, c.src, c.blockSize, c.preLoadOk);
    }
  }

  lemma NextBlockIs(p: Platform, s: State, c: Call)
    requires Inv(p, s) && c.ImageCopy? && MayCopy(p, s, c.id) && s.desc[c.id].state == Copying
    requires Named(c.src, c.blockSize)
    ensures s.desc[c.id].copiedSize < s.desc[c.id].imageSize
    ensures Smc(p, s, c) == CopyBlock(p, s, c.id, c.src, c.blockSize, c.preLoadOk)
  {
    assert DescOk(p, s, c.id);
  }

  lemma RefusedNextBlock(p: Platform, s: State, c: Call)
    requires Inv(p, s) && c.ImageCopy? && MayCopy(p, s, c.id) && s.desc[c.id].state == Copying
    requires Named(c.src, c.blockSize) && Smc(p, s, c).Done? && Smc(p, s, c).code != Success
    ensures Refused(s, Smc(p, s, c).state, c.id)
  {
    NextBlockIs(p, s, c);
    RefusedBlock(p, s, c.id, c.src, c.blockSize, c.preLoadOk);
  }

  /** A refused copy changes no byte, no other image, not the state of its image, and of a begun image nothing. */
  lemma RefusedCopy(p: Platform, s: State, c: Call)
    requires Inv(p, s) && c.ImageCopy? && Smc(p, s, c).Done? && Smc(p, s, c).code != Success
    ensures Refused(s, Smc(p, s, c).state, c.id)
  {
    if MayCopy(p, s, c.id) && Named(c.src, c.blockSize) {
      if s.desc[c.id].state == Copying { RefusedNextBlock(p, s, c); }
      else if SizeFits(p, s, c) { RefusedFirstCopy(p, s, c); }
    }
  }

  // ---- blocks that load an image

  /** The image can be loaded: nothing but the blocks is needed. */
  ghost predicate CanLoad(p: Platform, s: State, id: nat, imageSize: nat)
    requires Typed(p, s)
  {
    && MayCopy(p, s, id) && s.desc[id].state == Reset && 0 < imageSize <= p.images[id].maxSize
    && AreaClear(p, s, id, imageSize) && (id in s.loaded || INVALID_IMAGE_ID in s.loaded)
  }

  /** Loaded by blocks of `total` bytes: COPIED if that covers the size, and else COPYING with this progress. */
  predicate LoadedBy(d: Desc, imageSize: nat, total: nat) {
    d == if total >= imageSize then Desc(Copied, imageSize, imageSize) else Desc(Copying, imageSize, total)
  }

  /** Blocks of `total` bytes have been copied. */
  ghost predicate Loading(p: Platform, s: State, id: nat, imageSize: nat, total: nat) {
    Inv(p, s) &&
    if total == 0 then CanLoad(p, s, id, imageSize)
    else s.world == NonSecure && id in p.images && p.images[id].secure && LoadedBy(s.desc[id], imageSize, total)
  }

  /** The block fits a state in which `total` bytes have been copied. */
  predicate Fits(p: Platform, c: Call, imageSize: nat, total: nat) {
    && c.ImageCopy? && Named(c.src, c.blockSize) && total < imageSize
    && p.mapped(c.src, Min(c.blockSize, imageSize - total), NonSecure)
    && (total == 0 ==> c.imageSize == imageSize && c.preLoadOk)
  }

  lemma UsefulIsAccepted(p: Platform, s: State, c: Call, imageSize: nat, total: nat)
    requires Fits(p, c, imageSize, total) && Loading(p, s, c.id, imageSize, total)
    ensures CopyAccepted(p, s, c)
  {
    if total > 0 { assert c.id in s.loaded; }
  }

  lemma StoredIsLoaded(p: Platform, s: State, c: Call, imageSize: nat, total: nat, s1: State)
    requires Fits(p, c, imageSize, total) && Loading(p, s, c.id, imageSize, total)
    requires Inv(p, s1) && BlockStored(p, s, c, s1)
    ensures Loading(p, s1, c.id, imageSize, total + c.blockSize)
  {
  }

  /** The last event of the run is a block of the image that fits after `total` bytes. */
  predicate LastIsBlock(p: Platform, r: Run, id: nat, imageSize: nat, total: nat) {
    r.Then? && r.event.Call? && Fits(p, r.event.call, imageSize, total) && r.event.call.id == id
  }

  /** One useful block more. */
  lemma BlockLoads(p: Platform, r: Run, id: nat, imageSize: nat, total: nat)
    requires PlatformOk(p) && LastIsBlock(p, r, id, imageSize, total) && RunLoading(p, r.before, id, imageSize, total)
    ensures RunLoading(p, r, id, imageSize, total + r.event.call.blockSize)
  {
    var s, c := After(p, r.before).value, r.event.call;
    UsefulIsAccepted(p, s, c, imageSize, total);
    CopyEffect(p, s, c);
    StepKeeps(p, s, Call(c));
    StoredIsLoaded(p, s, c, imageSize, total, Smc(p, s, c).state);
  }

  ghost predicate RunLoading(p: Platform, r: Run, id: nat, imageSize: nat, total: nat)
    requires PlatformOk(p)
  {
    After(p, r).Some? && Loading(p, After(p, r).value, id, imageSize, total)
  }

  /** The run `r` goes on from `start` with copies of one image only: fitting blocks of `total` bytes in all. */
  ghost predicate OnlyBlocks(p: Platform, start: Run, r: Run, id: nat, imageSize: nat, total: nat)
    decreases r, 1
  {
    || (r == start && total == 0)
    || exists n: nat :: BlockAfter(p, start, r, id, imageSize, n, total)
  }

  ghost predicate BlockAfter(p: Platform, start: Run, r: Run, id: nat, imageSize: nat, n: nat, total: nat)
    decreases r, 0
  {
    LastIsBlock(p, r, id, imageSize, n) && total == n + r.event.call.blockSize
    && OnlyBlocks(p, start, r.before, id, imageSize, n)
  }

  lemma LastBlock(p: Platform, start: Run, r: Run, id: nat, imageSize: nat, n: nat, total: nat)
    requires BlockAfter(p, start, r, id, imageSize, n, total)
    ensures LastIsBlock(p, r, id, imageSize, n) && OnlyBlocks(p, start, r.before, id, imageSize, n)
    ensures total == n + r.event.call.blockSize
  {
  }

  /**
   Blocks that cover the size lead from RESET to COPIED, and fewer to COPYING with their total as progress: any
   number of them, of any sizes, each of which adds something.
   */
  lemma {:induction false} BlocksLoad(p: Platform, start: Run, r: Run, id: nat, imageSize: nat, total: nat)
    requires PlatformOk(p) && RunLoading(p, start, id, imageSize, 0) && OnlyBlocks(p, start, r, id, imageSize, total)
    ensures RunLoading(p, r, id, imageSize, total)
    decreases r
  {
    if !(r == start && total == 0) {
      var n: nat :| BlockAfter(p, start, r, id, imageSize, n, total);
      LastBlock(p, start, r, id, imageSize, n, total);
      BlocksLoad(p, start, r.before, id, imageSize, n);
      BlockLoads(p, r, id, imageSize, n);
    }
  }

  /** In particular the image is complete after blocks that cover its size. */
  lemma CoveringBlocksComplete(p: Platform, start: Run, r: Run, id: nat, imageSize: nat, total: nat)
    requires PlatformOk(p) && After(p, start).Some? && CanLoad(p, After(p, start).value, id, imageSize)
    requires OnlyBlocks(p, start, r, id, imageSize, total) && total >= imageSize
    ensures After(p, r).Some? && After(p, r).value.desc[id] == Desc(Copied, imageSize, imageSize)
  {
    RunKeepsInvariant(p, start);
    BlocksLoad(p, start, r, id, imageSize, total);
  }

  // ---- IMAGE_AUTH

  /** The image is to be authenticated where it was copied to, and not where it lies. */
  predicate AsCopied(p: Platform, s: State, id: nat)
    requires Typed(p, s)
  {
    s.world == NonSecure && id in p.images && p.images[id].secure
  }

  /** The image is in the state that the caller needs. */
  predicate StateFits(p: Platform, s: State, id: nat)
    requires Typed(p, s)
  {
    id in p.images && s.desc[id].state == if AsCopied(p, s, id) then Copied else Reset
  }

  /** Where the image lies can be read by its own world, and the table has a slot for it. */
  predicate SourceFits(p: Platform, s: State, c: Call)
    requires Typed(p, s) && c.ImageAuth?
  {
    && c.id in p.images && Named(c.src, c.imageSize)
    && p.mapped(c.src, c.imageSize, if p.images[c.id].secure then Secure else NonSecure)
    && (c.id in s.loaded || INVALID_IMAGE_ID in s.loaded)
  }

  /** The bytes get as far as the authentication module. */
  predicate Judged(p: Platform, s: State, c: Call)
    requires Typed(p, s) && c.ImageAuth?
  {
    StateFits(p, s, c.id) && (AsCopied(p, s, c.id) || SourceFits(p, s, c))
  }

  function Slice(mem: seq<bv8>, at: nat, n: nat): seq<bv8> {
    if at + n <= |mem| then mem[at..at + n] else []
  }

  /** The bytes that are judged. */
  function Subject(p: Platform, s: State, c: Call): seq<bv8>
    requires Typed(p, s) && c.ImageAuth? && c.id in p.images
  {
    if AsCopied(p, s, c.id) then Slice(s.mem, p.images[c.id].base, s.desc[c.id].imageSize)
    else Slice(s.mem, c.src, c.imageSize)
  }

  lemma SubjectIsRead(p: Platform, s: State, c: Call)
    requires PlatformOk(p) && Typed(p, s) && c.ImageAuth? && Judged(p, s, c) && DescOk(p, s, c.id)
    ensures AsCopied(p, s, c.id) ==>
              p.images[c.id].base + s.desc[c.id].imageSize <= |s.mem|
              && Subject(p, s, c) == Read(s.mem, p.images[c.id].base, s.desc[c.id].imageSize)
    ensures !AsCopied(p, s, c.id) ==> Subject(p, s, c) == Read(s.mem, c.src, c.imageSize)
  {
    if AsCopied(p, s, c.id) { assert p.images[c.id].base + p.images[c.id].maxSize <= p.memSize; }
  }

  /** The state in which the module is asked: an image judged where it lies is listed, with its size. */
  function Asked(s: State, c: Call, copied: bool): State
    requires c.ImageAuth? && c.id in s.desc && (copied || CanAdd(s.loaded, c.id))
  {
    if copied then s
    else WithDesc(s.(loaded := Added(s.loaded, c.id)), c.id, s.desc[c.id].(imageSize := c.imageSize))
  }

  lemma AuthIsVerdict(p: Platform, s: State, c: Call)
    requires PlatformOk(p) && Typed(p, s) && c.ImageAuth? && Judged(p, s, c)
    ensures var copied := AsCopied(p, s, c.id);
            Smc(p, s, c) == Verified(p, Asked(s, c, copied), c.id, if copied then p.images[c.id].base else c.src,
                                     if copied then s.desc[c.id].imageSize else c.imageSize, c.postLoadOk)
  {
  }

  lemma AuthIsRefused(p: Platform, s: State, c: Call)
    requires Typed(p, s) && c.ImageAuth? && !Judged(p, s, c)
    ensures Smc(p, s, c) == Done(s, if StateFits(p, s, c.id) then ENOMEM else EPERM)
  {
  }

  /** All answers of an authentication; a call that is refused without a verdict changes nothing. */
  lemma AuthAnswers(p: Platform, s: State, c: Call)
    requires Inv(p, s) && c.ImageAuth?
    ensures var r := Smc(p, s, c);
            && (r == Done(s, EPERM) <==> !StateFits(p, s, c.id))
            && (r == Done(s, ENOMEM) <==> StateFits(p, s, c.id) && !Judged(p, s, c))
            && (r.Done? && r.code == EAUTH <==> Judged(p, s, c) && !p.verify(c.id, Subject(p, s, c)))
            && (r.Done? && r.code == Success <==>
                  Judged(p, s, c) && p.verify(c.id, Subject(p, s, c)) && c.postLoadOk)
            && (r.Halted? <==> Judged(p, s, c) && p.verify(c.id, Subject(p, s, c)) && !c.postLoadOk)
  {
    if Judged(p, s, c) {
      assert DescOk(p, s, c.id);
      SubjectIsRead(p, s, c);
      AuthIsVerdict(p, s, c);
    } else {
      AuthIsRefused(p, s, c);
    }
  }

  /** A rejected image is reset and off the table; if it was copied, all its bytes are zero. */
  ghost predicate Rejected(p: Platform, s: State, c: Call, s1: State)
    requires Typed(p, s) && c.ImageAuth? && c.id in p.images
  {
    var size := if AsCopied(p, s, c.id) then s.desc[c.id].imageSize else c.imageSize;
    && ZeroedBytes(s.mem, s1.mem, p.images[c.id].base, if AsCopied(p, s, c.id) then size else 0)
    && c.id in s1.desc && s1.desc[c.id] == Desc(Reset, size, s.desc[c.id].copiedSize) && c.id !in s1.loaded
    && OthersKept(s, s1, c.id) && ControlKept(s, s1)
  }

  lemma RejectedCopy(p: Platform, s: State, c: Call)
    requires Inv(p, s) && c.ImageAuth? && Judged(p, s, c) && AsCopied(p, s, c.id) && !p.verify(c.id, Subject(p, s, c))
    ensures Smc(p, s, c).Done? && Rejected(p, s, c, Smc(p, s, c).state)
  {
    assert DescOk(p, s, c.id);
    SubjectIsRead(p, s, c);
    AuthIsVerdict(p, s, c);
    RemovedKeeps(s.loaded, c.id);
    WriteZeros(s.mem, p.images[c.id].base, s.desc[c.id].imageSize);
  }

  lemma RejectedInPlace(p: Platform, s: State, c: Call)
    requires Inv(p, s) && c.ImageAuth? && Judged(p, s, c) && !AsCopied(p, s, c.id) && !p.verify(c.id, Subject(p, s, c))
    ensures Smc(p, s, c).Done? && Rejected(p, s, c, Smc(p, s, c).state)
  {
    assert DescOk(p, s, c.id);
    SubjectIsRead(p, s, c);
    AuthIsVerdict(p, s, c);
    AddedKeeps(s.loaded, c.id);
    RemovedKeeps(Added(s.loaded, c.id), c.id);
  }

  lemma RejectedEffect(p: Platform, s: State, c: Call)
    requires Inv(p, s) && c.ImageAuth? && Smc(p, s, c).Done? && Smc(p, s, c).code == EAUTH
    ensures c.id in p.images && Rejected(p, s, c, Smc(p, s, c).state)
  {
    AuthAnswers(p, s, c);
    if AsCopied(p, s, c.id) { RejectedCopy(p, s, c); } else { RejectedInPlace(p, s, c); }
  }

  /** An accepted image is authenticated and listed; no byte changes. */
  lemma AcceptedEffect(p: Platform, s: State, c: Call)
    requires Inv(p, s) && c.ImageAuth? && Smc(p, s, c).Done? && Smc(p, s, c).code == Success
    ensures c.id in p.images
    ensures var s1 := Smc(p, s, c).state;
            var size := if AsCopied(p, s, c.id) then s.desc[c.id].imageSize else c.imageSize;
            && s1.mem == s.mem && ControlKept(s, s1) && OthersKept(s, s1, c.id) && c.id in s1.loaded
            && s1.desc[c.id] == Desc(Authenticated, size, s.desc[c.id].copiedSize)
  {
    AuthAnswers(p, s, c);
    assert DescOk(p, s, c.id);
    SubjectIsRead(p, s, c);
    AuthIsVerdict(p, s, c);
    if !AsCopied(p, s, c.id) { AddedKeeps(s.loaded, c.id); }
  }

  // ---- IMAGE_RESET

  predicate Underway(d: Desc) {
    d.state == Copying || d.state == Copied || d.state == Authenticated || d.state == Interrupted
  }

  /** An image that was reset: off the table, without size and progress, and zero where it had been copied to. */
  ghost predicate WasReset(p: Platform, s: State, id: nat, s1: State)
    requires Typed(p, s) && id in p.images
  {
    && ZeroedBytes(s.mem, s1.mem, p.images[id].base, s.desc[id].copiedSize)
    && id in s1.desc && s1.desc[id] == Desc(Reset, 0, 0) && id !in s1.loaded
    && OthersKept(s, s1, id) && ControlKept(s, s1)
  }

  lemma ResetIs(p: Platform, s: State, id: Uint32)
    requires Typed(p, s) && id in p.images && s.world == NonSecure && Underway(s.desc[id]) && id in s.loaded
    requires s.desc[id].copiedSize != 0 ==> p.images[id].secure
    ensures Smc(p, s, ImageReset(id)) ==
              Done(WithDesc(s, id, Desc(Reset, 0, 0))
                   .(loaded := Removed(s.loaded, id),
                     mem := Write(s.mem, p.images[id].base, Zeros(s.desc[id].copiedSize))), Success)
  {
  }

  /** The effect of a reset on an image under way. */
  lemma ResetEffect(p: Platform, s: State, id: Uint32)
    requires Inv(p, s) && s.world == NonSecure && id in p.images && Underway(s.desc[id])
    ensures var r := Smc(p, s, ImageReset(id)); r.Done? && r.code == Success && WasReset(p, s, id, r.state)
  {
    assert DescOk(p, s, id) && id in s.loaded;
    ResetIs(p, s, id);
    RemovedKeeps(s.loaded, id);
    if s.desc[id].copiedSize > 0 {
      assert p.images[id].base + p.images[id].maxSize <= p.memSize;
      WriteZeros(s.mem, p.images[id].base, s.desc[id].copiedSize);
    }
  }

  /** All other answers of a reset; they change nothing. `ResetHaltsExactly` says when it does not return. */
  lemma ResetAnswers(p: Platform, s: State, id: Uint32)
    requires Inv(p, s) && Smc(p, s, ImageReset(id)).Done?
    ensures var r := Smc(p, s, ImageReset(id));
            && (r.code == EPERM <==> id !in p.images || s.world == Secure)
            && (r.code == Success <==> id in p.images && s.world == NonSecure)
            && (r.state != s ==> id in p.images && s.world == NonSecure && Underway(s.desc[id]))
  {
    if id in p.images && s.world == NonSecure {
      assert DescOk(p, s, id);
      if Underway(s.desc[id]) { ResetEffect(p, s, id); }
    }
  }

  // ---- IMAGE_EXECUTE, IMAGE_RESUME and SEC_IMAGE_DONE

  /** Only the state of one image, the executing image and the world differ; the table does where it says so. */
  ghost predicate Moved(s: State, s1: State, id: nat, state: ImageState, secExec: nat, world: World) {
    && s1.mem == s.mem && OthersKept(s, s1, id)
    && id in s.desc && id in s1.desc && s1.desc[id] == Desc(state, s.desc[id].imageSize, s.desc[id].copiedSize)
    && s1.secExec == secExec && s1.world == world
  }

  /** The normal world starts exactly the authenticated executable secure images, and the image gets control. */
  lemma ExecuteAnswers(p: Platform, s: State, id: Uint32)
    requires Inv(p, s)
    ensures var r := Smc(p, s, ImageExecute(id));
            if s.world == NonSecure && id in p.images && p.images[id].secure && p.images[id].executable
               && s.desc[id].state == Authenticated
            then r.Done? && r.code == Success && r.state.loaded == s.loaded
                 && Moved(s, r.state, id, Executed, id, Secure)
            else r == Done(s, EPERM)
  {
  }

  /**
   A secure image that resumes is interrupted, an interrupted one that is resumed executes; the parameter is
   passed on.
   */
  lemma ResumeAnswers(p: Platform, s: State, param: Uintptr)
    requires Inv(p, s)
    ensures var r, id := Smc(p, s, ImageResume(param)), s.secExec;
            && (s.world == Secure ==> r.Done? && r.code == Param(param) && r.state.loaded == s.loaded
                                      && Moved(s, r.state, id, Interrupted, id, NonSecure))
            && (s.world == NonSecure && id !in p.images ==> r == Done(s, EPERM))
            && (s.world == NonSecure && id in p.images && s.desc[id].state == Interrupted ==>
                  r.Done? && r.code == Param(param) && r.state.loaded == s.loaded
                  && Moved(s, r.state, id, Executed, id, Secure))
            && (s.world == NonSecure && id in p.images && s.desc[id].state != Interrupted ==> r.Halted?)
  {
  }

  /** A secure image that is done is reset, off the table and forgotten; its bytes stay. */
  lemma DoneAnswers(p: Platform, s: State)
    requires Inv(p, s)
    ensures var r, id := Smc(p, s, SecImageDone), s.secExec;
            && (s.world == NonSecure ==> r == Done(s, EPERM))
            && (s.world == Secure ==> r.Done? && r.code == Success && id !in r.state.loaded
                                      && Moved(s, r.state, id, Reset, INVALID_IMAGE_ID, NonSecure))
  {
    if s.world == Secure {
      assert s.secExec in s.loaded;
      RemovedKeeps(s.loaded, s.secExec);
    }
  }
}

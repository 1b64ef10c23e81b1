/**
 The bytes of the secure images. An image under way owns the range it will run in, as long as every
 authentication in place by the secure world names a free range; no step but an accepted block of the
 image itself then changes these bytes. So the bytes that are executed are the accepted blocks, and
 they are the bytes that were verified wherever these were read at the image's own base.
 */
module FwuContent {
  import opened FwuModel
  import opened FwuInvariant
  import opened FwuTheorems

  /** The secure world asks for the authentication of a secure image where it lies. */
  predicate InPlaceSecureAuth(p: Platform, s: State, e: Event) {
    e.Call? && e.call.ImageAuth? && s.world == Secure && e.call.id in p.images && p.images[e.call.id].secure
  }

  /** The call succeeds for `id`. */
  predicate AuthenticatesInPlace(p: Platform, s: State, e: Event, id: nat)
    requires Typed(p, s)
  {
    InPlaceSecureAuth(p, s, e) && e.call.id == id && Step(p, s, e).Done? && Step(p, s, e).code == Success
  }

  predicate Held(p: Platform, s: State, id: nat)
    requires Typed(p, s)
  {
    id in p.images && p.images[id].secure && s.desc[id].state != Reset
  }

  predicate HeldSizes(p: Platform, s: State, id: nat)
    requires Typed(p, s) && id in p.images
  {
    var d := s.desc[id];
    0 < d.imageSize <= p.images[id].maxSize && d.copiedSize <= d.imageSize
  }

  /** Every secure image under way owns its range. */
  ghost predicate HeldOk(p: Platform, s: State)
    requires Typed(p, s)
  {
    && (forall id :: Held(p, s, id) ==> HeldSizes(p, s, id))
    && (forall a, b :: Held(p, s, a) && Held(p, s, b) && a != b ==> Apart(p, s, a, b))
  }

  /**
   The range at the base of an image that is authenticated in place is within its area, holds what was
   copied of the image before, and is free.
   */
  ghost predicate NamesFreeRange(p: Platform, s: State, c: Call)
    requires Typed(p, s) && c.ImageAuth? && c.id in p.images
  {
    && s.desc[c.id].copiedSize <= c.imageSize <= p.images[c.id].maxSize
    && forall x :: Held(p, s, x) ==> Apart(p, Sized(p, s, c.id, c.imageSize), c.id, x)
  }

  /** An authentication in place that succeeds names a free range. */
  ghost predicate Respects(p: Platform, s: State, e: Event)
    requires Typed(p, s)
  {
    e.Call? && e.call.ImageAuth? && AuthenticatesInPlace(p, s, e, e.call.id) ==> NamesFreeRange(p, s, e.call)
  }

  ghost predicate RangesRespected(p: Platform, r: Run)
    requires PlatformOk(p)
  {
    match r
    case Start(_) => true
    case Then(before, e) =>
      RangesRespected(p, before) && (After(p, before).Some? ==> Respects(p, After(p, before).value, e))
  }

  // ---- ownership is kept

  lemma ChangeKeepsHeld(p: Platform, s: State, s1: State, id: nat)
    requires Typed(p, s) && HeldOk(p, s) && Typed(p, s1) && id in p.images
    requires forall x :: x in p.images && x != id ==> s1.desc[x] == s.desc[x]
    requires Held(p, s1, id) ==> HeldSizes(p, s1, id) && forall x :: Held(p, s, x) && x != id ==> Apart(p, s1, id, x)
    ensures HeldOk(p, s1)
  {
    forall x | Held(p, s1, x) ensures HeldSizes(p, s1, x) {
      if x != id { assert Held(p, s, x); }
    }
    forall x, y | Held(p, s1, x) && Held(p, s1, y) && x != y ensures Apart(p, s1, x, y) {
      if x != id { assert Held(p, s, x); }
      if y != id { assert Held(p, s, y); }
      if x != id && y != id { assert Apart(p, s, x, y); }
      else if x == id { assert Apart(p, s1, id, y); }
      else { assert Apart(p, s1, id, x); }
    }
  }

  /** Steps that leave the size and progress of `id` as they are. */
  lemma SameSizesKeepHeld(p: Platform, s: State, s1: State, id: nat)
    requires Typed(p, s) && HeldOk(p, s) && Typed(p, s1) && id in p.images
    requires forall x :: x in p.images && x != id ==> s1.desc[x] == s.desc[x]
    requires Held(p, s1, id) ==>
      && Held(p, s, id) && s1.desc[id].imageSize == s.desc[id].imageSize
      && (s1.desc[id].copiedSize == s.desc[id].copiedSize
          || s.desc[id].copiedSize <= s1.desc[id].copiedSize <= s1.desc[id].imageSize)
    ensures HeldOk(p, s1)
  {
    if Held(p, s1, id) {
      assert HeldSizes(p, s, id);
      forall x | Held(p, s, x) && x != id ensures Apart(p, s1, id, x) {
        assert Apart(p, s, id, x);
      }
    }
    ChangeKeepsHeld(p, s, s1, id);
  }

  lemma FirstBlockKeepsHeld(p: Platform, s: State, id: Uint32, src: Uintptr, blockSize: Uint32, imageSize: Uint32,
                            preLoadOk: bool)
    requires Inv(p, s) && HeldOk(p, s) && ChecksOverlaps(p, s, ImageCopy(id, src, blockSize, imageSize, preLoadOk))
    requires CheckOverlaps(p, Sized(p, s, id, imageSize), id, 0) == Clear
    ensures HeldOk(p, CopyBlock(p, WithDesc(s, id, Desc(Reset, imageSize, 0)), id, src, blockSize, preLoadOk).state)
  {
    var s1 := CopyBlock(p, WithDesc(s, id, Desc(Reset, imageSize, 0)), id, src, blockSize, preLoadOk).state;
    if Held(p, s1, id) {
      ClearIsApart(p, Sized(p, s, id, imageSize), id);
      forall x | Held(p, s, x) && x != id ensures Apart(p, s1, id, x) {
        assert x in s.loaded && HeldSizes(p, s, x);
        assert Apart(p, Sized(p, s, id, imageSize), id, x);
      }
    }
    ChangeKeepsHeld(p, s, s1, id);
  }

  /** A copy call other than the first changes of a held image its progress. */
  lemma CopyKeepsSizes(p: Platform, s: State, c: Call)
    requires Inv(p, s) && HeldOk(p, s) && c.ImageCopy? && c.id in p.images && Smc(p, s, c).Done?
    requires s.desc[c.id].state == Copying || !ChecksOverlaps(p, s, c)
    ensures var s1 := Smc(p, s, c).state;
            && (forall x :: x in p.images && x != c.id ==> s1.desc[x] == s.desc[x])
            && (Held(p, s1, c.id) ==>
                  Held(p, s, c.id) && s1.desc[c.id].imageSize == s.desc[c.id].imageSize
                  && s.desc[c.id].copiedSize <= s1.desc[c.id].copiedSize <= s1.desc[c.id].imageSize)
  {
    assert DescOk(p, s, c.id);
    if Held(p, s, c.id) { assert HeldSizes(p, s, c.id); }
  }

  lemma FirstCopyKeepsHeld(p: Platform, s: State, c: Call)
    requires Inv(p, s) && HeldOk(p, s) && c.ImageCopy? && ChecksOverlaps(p, s, c) && Smc(p, s, c).Done?
    ensures HeldOk(p, Smc(p, s, c).state)
  {
    if CheckOverlaps(p, Sized(p, s, c.id, c.imageSize), c.id, 0) == Clear {
      FirstBlockKeepsHeld(p, s, c.id, c.src, c.blockSize, c.imageSize, c.preLoadOk);
    } else {
      SameSizesKeepHeld(p, s, Smc(p, s, c).state, c.id);
    }
  }

  lemma CopyKeepsHeld(p: Platform, s: State, c: Call)
    requires Inv(p, s) && HeldOk(p, s) && c.ImageCopy?
    ensures Smc(p, s, c).Done? ==> HeldOk(p, Smc(p, s, c).state)
  {
    if c.id in p.images && Smc(p, s, c).Done? {
      if ChecksOverlaps(p, s, c) {
        FirstCopyKeepsHeld(p, s, c);
      } else {
        CopyKeepsSizes(p, s, c);
        SameSizesKeepHeld(p, s, Smc(p, s, c).state, c.id);
      }
    }
  }

  /** Without a success in place, an authentication changes of a held image nothing but its state. */
  lemma AuthKeepsSizes(p: Platform, s: State, c: Call)
    requires Typed(p, s) && c.ImageAuth? && c.id in p.images && Smc(p, s, c).Done?
    requires !AuthenticatesInPlace(p, s, Event.Call(c), c.id)
    ensures var s1 := Smc(p, s, c).state;
            && (forall x :: x in p.images && x != c.id ==> s1.desc[x] == s.desc[x])
            && (Held(p, s1, c.id) ==>
                  Held(p, s, c.id) && s1.desc[c.id].imageSize == s.desc[c.id].imageSize
                  && s1.desc[c.id].copiedSize == s.desc[c.id].copiedSize)
  {
  }

  lemma AuthKeepsHeld(p: Platform, s: State, c: Call)
    requires Inv(p, s) && HeldOk(p, s) && c.ImageAuth? && !AuthenticatesInPlace(p, s, Event.Call(c), c.id)
    ensures Smc(p, s, c).Done? ==> HeldOk(p, Smc(p, s, c).state)
  {
    if c.id in p.images && Smc(p, s, c).Done? {
      AuthKeepsSizes(p, s, c);
      SameSizesKeepHeld(p, s, Smc(p, s, c).state, c.id);
    }
  }

  lemma InPlaceResult(p: Platform, s: State, c: Call)
    requires Typed(p, s) && c.ImageAuth? && AuthenticatesInPlace(p, s, Event.Call(c), c.id)
    ensures Smc(p, s, c).state.desc == s.desc[c.id := Desc(Authenticated, c.imageSize, s.desc[c.id].copiedSize)]
    ensures s.desc[c.id].state == Reset && c.imageSize > 0
  {
  }

  /** A successful authentication in place keeps ownership exactly when it names a free range. */
  lemma InPlaceAuthKeepsHeldExactly(p: Platform, s: State, c: Call)
    requires Inv(p, s) && HeldOk(p, s) && c.ImageAuth? && AuthenticatesInPlace(p, s, Event.Call(c), c.id)
    ensures HeldOk(p, Smc(p, s, c).state) <==> NamesFreeRange(p, s, c)
  {
    var s1 := Smc(p, s, c).state;
    InPlaceResult(p, s, c);
    assert Held(p, s1, c.id);
    if HeldOk(p, s1) {
      assert HeldSizes(p, s1, c.id);
      forall x | Held(p, s, x) ensures Apart(p, Sized(p, s, c.id, c.imageSize), c.id, x) {
        assert Held(p, s1, x) && Apart(p, s1, c.id, x);
      }
    }
    if NamesFreeRange(p, s, c) {
      assert forall x :: Held(p, s, x) && x != c.id ==> Apart(p, s1, c.id, x);
      ChangeKeepsHeld(p, s, s1, c.id);
    }
  }

  lemma ControlKeepsHeld(p: Platform, s: State, c: Call)
    requires Inv(p, s) && HeldOk(p, s) && !c.ImageAuth? && !c.ImageCopy?
    ensures var r := Smc(p, s, c); r.Done? ==> HeldOk(p, r.state)
  {
    var r := Smc(p, s, c);
    if r.Done? && r.state != s {
      var id := if c.ImageExecute? || c.ImageReset? then c.id else s.secExec;
      if Held(p, s, id) { assert HeldSizes(p, s, id); }
      SameSizesKeepHeld(p, s, r.state, id);
    }
  }

  /** A step keeps ownership exactly when it respects the ranges. */
  lemma StepKeepsHeldExactly(p: Platform, s: State, e: Event)
    requires Inv(p, s) && HeldOk(p, s) && Step(p, s, e).Done?
    ensures HeldOk(p, Step(p, s, e).state) <==> Respects(p, s, e)
  {
    match e
    case Store(at, data) =>
      var s1 := s.(mem := Write(s.mem, at, data));
      assert forall id :: id in p.images ==> HeldSizes(p, s1, id) == HeldSizes(p, s, id);
      assert forall a, b :: a in p.images && b in p.images ==> Apart(p, s1, a, b) == Apart(p, s, a, b);
    case Call(c) =>
      if c.ImageCopy? { CopyKeepsHeld(p, s, c); }
      else if c.ImageAuth? {
        if AuthenticatesInPlace(p, s, e, c.id) { InPlaceAuthKeepsHeldExactly(p, s, c); }
        else { AuthKeepsHeld(p, s, c); }
      }
      else { ControlKeepsHeld(p, s, c); }
  }

  /** Ownership held at every point of the run so far. */
  ghost predicate AlwaysHeld(p: Platform, r: Run)
    requires PlatformOk(p) && After(p, r).Some?
  {
    HeldOk(p, After(p, r).value) && (r.Then? ==> AlwaysHeld(p, r.before))
  }

  /** Secure images under way own their ranges all along exactly in the runs that respect the ranges. */
  lemma {:induction false} AlwaysHeldExactly(p: Platform, r: Run)
    requires PlatformOk(p) && After(p, r).Some?
    ensures AlwaysHeld(p, r) <==> RangesRespected(p, r)
  {
    match r
    case Start(_) =>
    case Then(before, e) =>
      AlwaysHeldExactly(p, before);
      RunKeepsInvariant(p, before);
      if AlwaysHeld(p, before) { StepKeepsHeldExactly(p, After(p, before).value, e); }
  }

  // ---- what a step does to the bytes of one image

  /** The copied bytes of an image are meaningful until it runs. */
  predicate Loaded(p: Platform, s: State, id: nat)
    requires Typed(p, s)
  {
    Held(p, s, id) && s.desc[id].state in {Copying, Copied, Authenticated}
  }

  function Bytes(p: Platform, s: State, id: nat): seq<bv8>
    requires Typed(p, s) && id in p.images
  {
    Read(s.mem, p.images[id].base, s.desc[id].copiedSize)
  }

  /** Everything an image owns, copied already or not. */
  function Range(p: Platform, s: State, id: nat): seq<bv8>
    requires Typed(p, s) && id in p.images
  {
    Read(s.mem, p.images[id].base, s.desc[id].imageSize)
  }

  /** The bytes follow from the range. */
  lemma BytesInRange(p: Platform, s: State, id: nat)
    requires PlatformOk(p) && Typed(p, s) && id in p.images && p.images[id].secure && HeldSizes(p, s, id)
    ensures Bytes(p, s, id) == Range(p, s, id)[..s.desc[id].copiedSize]
  {
    assert p.images[id].base + p.images[id].maxSize <= p.memSize;
  }

  lemma WriteElsewhere(mem: seq<bv8>, at: nat, data: seq<bv8>, base: nat, n: nat)
    requires at + |data| <= base || base + n <= at
    ensures Read(Write(mem, at, data), base, n) == Read(mem, base, n)
  {
    var a, b := Read(Write(mem, at, data), base, n), Read(mem, base, n);
    assert forall i :: 0 <= i < n ==> a[i] == b[i];
  }

  lemma WriteNext(mem: seq<bv8>, base: nat, n: nat, data: seq<bv8>)
    requires base + n + |data| <= |mem|
    ensures Read(Write(mem, base + n, data), base, n + |data|) == Read(mem, base, n) + data
  {
    var a, b := Read(Write(mem, base + n, data), base, n + |data|), Read(mem, base, n) + data;
    assert |a| == |b| && forall i :: 0 <= i < |a| ==> a[i] == b[i];
  }

  /** An accepted block is appended to the bytes of its image. */
  lemma BlockAppends(p: Platform, s: State, id: nat, src: Uintptr, blockSize: Uint32, preLoadOk: bool)
    requires PlatformOk(p) && Typed(p, s) && id in p.images && p.images[id].secure
    requires s.desc[id].copiedSize < s.desc[id].imageSize <= p.images[id].maxSize
    requires CopyBlock(p, s, id, src, blockSize, preLoadOk).code == Success
    ensures var s1 := CopyBlock(p, s, id, src, blockSize, preLoadOk).state;
            var n := Min(blockSize, s.desc[id].imageSize - s.desc[id].copiedSize);
            Bytes(p, s1, id) == Bytes(p, s, id) + Read(s.mem, src, n)
  {
    var n := Min(blockSize, s.desc[id].imageSize - s.desc[id].copiedSize);
    assert p.images[id].base + p.images[id].maxSize <= p.memSize;
    WriteNext(s.mem, p.images[id].base, s.desc[id].copiedSize, Read(s.mem, src, n));
  }

  /** The bytes a successful copy call takes from its source. */
  function AcceptedBlock(p: Platform, s: State, c: Call, sofar: nat): seq<bv8>
    requires Typed(p, s) && c.ImageCopy? && c.id in p.images
  {
    var total := if s.desc[c.id].state == Reset then c.imageSize else s.desc[c.id].imageSize;
    Read(s.mem, c.src, if sofar <= total then Min(c.blockSize, total - sofar) else 0)
  }

  lemma FirstCopyAppends(p: Platform, s: State, c: Call)
    requires Inv(p, s) && c.ImageCopy? && c.id in p.images && s.desc[c.id].state == Reset
    requires Smc(p, s, c).Done? && Smc(p, s, c).code == Success
    ensures Bytes(p, Smc(p, s, c).state, c.id) == AcceptedBlock(p, s, c, 0)
  {
    var s1 := WithDesc(s, c.id, Desc(Reset, c.imageSize, 0));
    BlockAppends(p, s1, c.id, c.src, c.blockSize, c.preLoadOk);
    assert Bytes(p, s1, c.id) == [];
  }

  lemma CopyAppends(p: Platform, s: State, e: Event, id: nat)
    requires Inv(p, s) && id in p.images && CopiesBlock(p, s, e, id)
    ensures var prior := if s.desc[id].state == Reset then [] else Bytes(p, s, id);
            Bytes(p, Step(p, s, e).state, id) == prior + AcceptedBlock(p, s, e.call, |prior|)
  {
    assert DescOk(p, s, id);
    if s.desc[id].state == Reset {
      FirstCopyAppends(p, s, e.call);
    } else {
      BlockAppends(p, s, id, e.call.src, e.call.blockSize, e.call.preLoadOk);
    }
  }

  /** A block copied for `other` stays inside the bytes `other` owns. */
  lemma BlockElsewhere(p: Platform, s: State, other: nat, src: Uintptr, blockSize: Uint32, preLoadOk: bool, id: nat)
    requires Typed(p, s) && other in p.images && p.images[other].secure && id != other
    requires s.desc[other].copiedSize < s.desc[other].imageSize
    requires var s1 := CopyBlock(p, s, other, src, blockSize, preLoadOk).state;
             s1.mem != s.mem ==> Held(p, s1, id) && Apart(p, s1, id, other)
    requires id in p.images
    ensures Range(p, CopyBlock(p, s, other, src, blockSize, preLoadOk).state, id) == Range(p, s, id)
  {
    var s1 := CopyBlock(p, s, other, src, blockSize, preLoadOk).state;
    if s1.mem != s.mem {
      var n := Min(blockSize, s.desc[other].imageSize - s.desc[other].copiedSize);
      WriteElsewhere(s.mem, p.images[other].base + s.desc[other].copiedSize, Read(s.mem, src, n),
                     p.images[id].base, s.desc[id].imageSize);
    }
  }

  lemma CopyElsewhere(p: Platform, s: State, c: Call, id: nat)
    requires Typed(p, s) && c.ImageCopy? && Smc(p, s, c).Done?
    requires HeldOk(p, Smc(p, s, c).state) && Held(p, Smc(p, s, c).state, id) && c.id != id
    ensures Range(p, Smc(p, s, c).state, id) == Range(p, s, id)
  {
    var s1 := Smc(p, s, c).state;
    if s1.mem != s.mem {
      assert Held(p, s1, c.id) && Apart(p, s1, id, c.id);
      if s.desc[c.id].state == Copying {
        BlockElsewhere(p, s, c.id, c.src, c.blockSize, c.preLoadOk, id);
      } else {
        BlockElsewhere(p, WithDesc(s, c.id, Desc(Reset, c.imageSize, 0)), c.id, c.src, c.blockSize, c.preLoadOk, id);
      }
    }
  }

  /** Clearing another image's bytes, after a failed authentication or on reset. */
  lemma ClearElsewhere(p: Platform, s: State, other: nat, n: nat, id: nat)
    requires Typed(p, s) && HeldOk(p, s) && Held(p, s, id) && other in p.images && other != id
    requires n == 0 || (Held(p, s, other) && n <= s.desc[other].imageSize)
    ensures var mem := Write(s.mem, p.images[other].base, Zeros(n));
            Read(mem, p.images[id].base, s.desc[id].imageSize) == Range(p, s, id)
  {
    if n == 0 {
      assert Write(s.mem, p.images[other].base, Zeros(n)) == s.mem;
    } else {
      assert Apart(p, s, id, other);
      WriteElsewhere(s.mem, p.images[other].base, Zeros(n), p.images[id].base, s.desc[id].imageSize);
    }
  }

  lemma AuthElsewhere(p: Platform, s: State, c: Call, id: nat)
    requires Typed(p, s) && HeldOk(p, s) && DescsOk(p, s) && c.ImageAuth? && Smc(p, s, c).Done?
    requires Held(p, s, id) && c.id in p.images && (c.id == id ==> Smc(p, s, c).state.desc[id].state != Reset)
    requires Smc(p, s, c).state.desc[id].imageSize == s.desc[id].imageSize
    ensures Range(p, Smc(p, s, c).state, id) == Range(p, s, id)
  {
    var s1 := Smc(p, s, c).state;
    if s1.mem != s.mem {
      assert DescOk(p, s, c.id);
      assert Held(p, s, c.id);
      ClearElsewhere(p, s, c.id, s.desc[c.id].imageSize, id);
    }
  }

  lemma ResetElsewhere(p: Platform, s: State, c: Call, id: nat)
    requires Typed(p, s) && HeldOk(p, s) && DescsOk(p, s) && c.ImageReset? && Smc(p, s, c).Done?
    requires Held(p, s, id) && c.id != id
    ensures Range(p, Smc(p, s, c).state, id) == Range(p, s, id)
  {
    var s1 := Smc(p, s, c).state;
    if s1.mem != s.mem {
      assert DescOk(p, s, c.id);
      if Held(p, s, c.id) { assert HeldSizes(p, s, c.id); }
      ClearElsewhere(p, s, c.id, s.desc[c.id].copiedSize, id);
    }
  }

  lemma StoreElsewhere(p: Platform, s: State, at: nat, data: seq<bv8>, id: nat)
    requires Inv(p, s) && HeldOk(p, s) && Loaded(p, s, id) && MayStore(p, s, at, |data|)
    ensures Read(Write(s.mem, at, data), p.images[id].base, s.desc[id].imageSize) == Range(p, s, id)
  {
    assert HeldSizes(p, s, id);
    if s.world == Secure {
      assert Held(p, s, s.secExec);
      assert Apart(p, s, id, s.secExec);
    }
    WriteElsewhere(s.mem, at, data, p.images[id].base, s.desc[id].imageSize);
  }

  /** Size, progress and range of an image that stays loaded are as before. */
  ghost predicate Kept(p: Platform, s: State, s1: State, id: nat)
    requires Typed(p, s) && Typed(p, s1)
  {
    && Loaded(p, s, id)
    && s1.desc[id].imageSize == s.desc[id].imageSize && s1.desc[id].copiedSize == s.desc[id].copiedSize
    && Range(p, s1, id) == Range(p, s, id)
  }

  /** A copy call other than an accepted block of the image itself keeps the image's range. */
  lemma CopyKeepsRange(p: Platform, s: State, c: Call, id: nat)
    requires Inv(p, s) && HeldOk(p, s) && c.ImageCopy? && Smc(p, s, c).Done?
    requires Loaded(p, Smc(p, s, c).state, id) && !CopiesBlock(p, s, Event.Call(c), id)
    ensures Kept(p, s, Smc(p, s, c).state, id)
  {
    if c.id == id {
      FailedCopyKeeps(p, s, c);
    } else {
      CopyKeepsHeld(p, s, c);
      CopyLists(p, s, c);
      CopyElsewhere(p, s, c, id);
    }
  }

  lemma AuthKeepsRange(p: Platform, s: State, c: Call, id: nat)
    requires Inv(p, s) && HeldOk(p, s) && c.ImageAuth? && Smc(p, s, c).Done?
    requires Loaded(p, Smc(p, s, c).state, id) && !AuthenticatesInPlace(p, s, Event.Call(c), id)
    ensures Kept(p, s, Smc(p, s, c).state, id)
  {
    AuthKeepsLoaded(p, s, c, id);
    if c.id in p.images { AuthElsewhere(p, s, c, id); }
  }

  lemma ControlKeepsRange(p: Platform, s: State, c: Call, id: nat)
    requires Inv(p, s) && HeldOk(p, s) && !c.ImageAuth? && !c.ImageCopy? && Smc(p, s, c).Done?
    requires Loaded(p, Smc(p, s, c).state, id)
    ensures Kept(p, s, Smc(p, s, c).state, id)
  {
    ControlKeepsLoaded(p, s, c, id);
    if c.ImageReset? && c.id != id { ResetElsewhere(p, s, c, id); }
  }

  /**
   No step changes the range of a loaded image, except for an accepted block of the image itself and for
   the authentication in place that loads it.
   */
  lemma OthersKeepRange(p: Platform, s: State, e: Event, id: nat)
    requires Inv(p, s) && HeldOk(p, s) && Step(p, s, e).Done? && Loaded(p, Step(p, s, e).state, id)
    requires !CopiesBlock(p, s, e, id) && !AuthenticatesInPlace(p, s, e, id)
    ensures Kept(p, s, Step(p, s, e).state, id)
  {
    match e
    case Store(at, data) =>
      if MayStore(p, s, at, |data|) { StoreElsewhere(p, s, at, data, id); }
    case Call(c) =>
      if c.ImageCopy? { CopyKeepsRange(p, s, c, id); }
      else if c.ImageAuth? { AuthKeepsRange(p, s, c, id); }
      else { ControlKeepsRange(p, s, c, id); }
  }

  lemma FailedCopyKeeps(p: Platform, s: State, c: Call)
    requires Typed(p, s) && c.ImageCopy? && c.id in p.images
    requires Smc(p, s, c).Done? && Smc(p, s, c).code != Success && Smc(p, s, c).state.desc[c.id].state != Reset
    ensures Smc(p, s, c).state.desc == s.desc && Smc(p, s, c).state.mem == s.mem
  {
    assert s.desc[c.id := s.desc[c.id]] == s.desc;
  }

  lemma AuthKeepsLoaded(p: Platform, s: State, c: Call, id: nat)
    requires Typed(p, s) && c.ImageAuth? && Smc(p, s, c).Done? && !AuthenticatesInPlace(p, s, Event.Call(c), id)
    requires Loaded(p, Smc(p, s, c).state, id)
    ensures var s1 := Smc(p, s, c).state;
            && Loaded(p, s, id) && s.desc[id].copiedSize == s1.desc[id].copiedSize
            && s.desc[id].imageSize == s1.desc[id].imageSize
  {
  }

  lemma ControlKeepsLoaded(p: Platform, s: State, c: Call, id: nat)
    requires Typed(p, s) && !c.ImageAuth? && !c.ImageCopy? && Smc(p, s, c).Done?
    requires Loaded(p, Smc(p, s, c).state, id)
    ensures Loaded(p, s, id) && s.desc[id] == Smc(p, s, c).state.desc[id]
    ensures c.ImageReset? && c.id == id ==> Smc(p, s, c).state == s
    ensures !c.ImageReset? ==> Smc(p, s, c).state.mem == s.mem
  {
  }

  // ---- copied images

  /** The accepted blocks of `id` since it was last reset, in order. */
  ghost function Received(p: Platform, r: Run, id: nat): seq<bv8>
    requires PlatformOk(p) && After(p, r).Some? && id in p.images
  {
    match r
    case Start(_) => []
    case Then(before, e) =>
      var s := After(p, before).value;
      if CopiesBlock(p, s, e, id) then
        var sofar := if s.desc[id].state == Reset then [] else Received(p, before, id);
        sofar + AcceptedBlock(p, s, e.call, |sofar|)
      else if After(p, r).value.desc[id].state == Reset then []
      else Received(p, before, id)
  }

  /** `id` was authenticated in place, and has not been reset since. */
  ghost predicate InPlace(p: Platform, r: Run, id: nat)
    requires PlatformOk(p) && After(p, r).Some? && id in p.images
  {
    match r
    case Start(_) => false
    case Then(before, e) =>
      && After(p, r).value.desc[id].state != Reset
      && (AuthenticatesInPlace(p, After(p, before).value, e, id) || InPlace(p, before, id))
  }

  /** What is known of a copied image: its bytes are `blocks`, and all of them once it is complete. */
  ghost predicate BytesAre(p: Platform, s: State, id: nat, blocks: seq<bv8>)
    requires Typed(p, s) && id in p.images
  {
    var d := s.desc[id];
    Bytes(p, s, id) == blocks && (d.state != Copying ==> |blocks| == d.copiedSize == d.imageSize)
  }

  lemma BlockKeepsBytes(p: Platform, s: State, e: Event, id: nat, blocks: seq<bv8>)
    requires Inv(p, s) && id in p.images && CopiesBlock(p, s, e, id)
    requires if s.desc[id].state == Reset then blocks == [] else BytesAre(p, s, id, blocks)
    requires DescOk(p, Step(p, s, e).state, id)
    ensures BytesAre(p, Step(p, s, e).state, id, blocks + AcceptedBlock(p, s, e.call, |blocks|))
  {
    assert DescOk(p, s, id);
    CopyAdvances(p, s, e, id);
    CopyAppends(p, s, e, id);
  }

  lemma OthersKeepBytes(p: Platform, s: State, e: Event, id: nat, blocks: seq<bv8>)
    requires Inv(p, s) && HeldOk(p, s) && Step(p, s, e).Done? && Loaded(p, Step(p, s, e).state, id)
    requires !CopiesBlock(p, s, e, id) && !AuthenticatesInPlace(p, s, e, id) && BytesAre(p, s, id, blocks)
    ensures Loaded(p, s, id) && BytesAre(p, Step(p, s, e).state, id, blocks)
  {
    var s1 := Step(p, s, e).state;
    OthersKeepRange(p, s, e, id);
    assert HeldSizes(p, s, id) && HeldSizes(p, s1, id);
    BytesInRange(p, s, id);
    BytesInRange(p, s1, id);
    assert DescOk(p, s, id);
    OnlyBlocksComplete(p, s, e, id);
  }

  lemma AuthNeedsCopied(p: Platform, s: State, c: Call, id: nat)
    requires Typed(p, s) && c.ImageAuth? && Smc(p, s, c).Done? && id in p.images && s.desc[id].state == Copying
    ensures Smc(p, s, c).state.desc[id].state == Copying
  {
  }

  /** Only an accepted block completes an image. */
  lemma OnlyBlocksComplete(p: Platform, s: State, e: Event, id: nat)
    requires Typed(p, s) && Step(p, s, e).Done? && Loaded(p, s, id) && !CopiesBlock(p, s, e, id) && DescOk(p, s, id)
    ensures var s1 := Step(p, s, e).state;
            s1.desc[id].state != Copying ==> s.desc[id].state != Copying || !Loaded(p, s1, id)
  {
    CopyAdvances(p, s, e, id);
    if e.Call? && s.desc[id].state == Copying {
      if e.call.ImageAuth? { AuthNeedsCopied(p, s, e.call, id); }
      else if e.call.ImageCopy? { CopyStaysBefore(p, s, e.call, id); }
      else { ControlStaysBefore(p, s, e.call, id); }
    }
  }

  /**
   From its first block until it runs, is reset or fails authentication, the bytes of an image that was
   copied are the concatenation of its accepted blocks.
   */
  lemma {:induction false} BytesAreTheBlocksReceived(p: Platform, r: Run, id: nat)
    requires PlatformOk(p) && After(p, r).Some? && RangesRespected(p, r)
    requires Loaded(p, After(p, r).value, id) && !InPlace(p, r, id)
    ensures BytesAre(p, After(p, r).value, id, Received(p, r, id))
  {
    match r
    case Start(_) =>
    case Then(before, e) =>
      var s := After(p, before).value;
      RunKeepsHeld(p, before);
      RunKeepsHeld(p, r);
      if CopiesBlock(p, s, e, id) {
        assert DescOk(p, s, id);
        CopyAdvances(p, s, e, id);
        if s.desc[id].state != Reset { BytesAreTheBlocksReceived(p, before, id); }
        BlockKeepsBytes(p, s, e, id, if s.desc[id].state == Reset then [] else Received(p, before, id));
      } else {
        OthersKeepRange(p, s, e, id);
        BytesAreTheBlocksReceived(p, before, id);
        OthersKeepBytes(p, s, e, id, Received(p, before, id));
      }
  }

  lemma RunKeepsHeld(p: Platform, r: Run)
    requires PlatformOk(p) && After(p, r).Some? && RangesRespected(p, r)
    ensures Inv(p, After(p, r).value) && HeldOk(p, After(p, r).value)
  {
    RunKeepsInvariant(p, r);
    AlwaysHeldExactly(p, r);
  }

  // ---- authenticated images

  /** The bytes that the call has verified lie at the base of the image. */
  predicate ReadsAtBase(p: Platform, s: State, c: Call)
    requires Typed(p, s) && c.ImageAuth? && c.id in p.images
  {
    s.desc[c.id].state == Copied || c.src == p.images[c.id].base
  }

  /** When `id` was authenticated, its bytes were read at its base, and it has not been reset since. */
  ghost predicate VerifiedAtBase(p: Platform, r: Run, id: nat)
    requires PlatformOk(p) && After(p, r).Some? && id in p.images
  {
    match r
    case Start(_) => false
    case Then(before, e) =>
      var s := After(p, before).value;
      && After(p, r).value.desc[id].state != Reset
      && (if Authenticates(p, s, e, id) then ReadsAtBase(p, s, e.call) else VerifiedAtBase(p, before, id))
  }

  lemma AuthenticatesRange(p: Platform, s: State, e: Event, id: nat)
    requires Typed(p, s) && Authenticates(p, s, e, id) && ReadsAtBase(p, s, e.call)
    ensures var s1 := Step(p, s, e).state; p.verify(id, Range(p, s1, id)) && s1.desc[id].state == Authenticated
  {
  }

  lemma InPlaceAuthenticates(p: Platform, s: State, e: Event, id: nat)
    requires Typed(p, s) && AuthenticatesInPlace(p, s, e, id)
    ensures Authenticates(p, s, e, id)
  {
    var c := e.call;
    AuthMeansVerified(p, s, c.id, c.src, c.imageSize, c.postLoadOk);
  }

  /** An image that runs or waits to run is not authenticated again. */
  lemma StaysPast(p: Platform, s: State, e: Event, id: nat)
    requires Typed(p, s) && Step(p, s, e).Done? && id in p.images && PastAuthentication(s.desc[id])
    requires Step(p, s, e).state.desc[id].state == Authenticated
    ensures s.desc[id].state == Authenticated
  {
    match e
    case Store(_, _) =>
    case Call(c) =>
      match c
      case ImageCopy(_, _, _, _, _) =>
      case ImageAuth(_, _, _, _) =>
      case _ =>
  }

  /** No step but an authentication makes an image authenticated. */
  lemma AuthenticatedBefore(p: Platform, s: State, e: Event, id: nat)
    requires Inv(p, s) && Step(p, s, e).Done? && Held(p, Step(p, s, e).state, id) && !Authenticates(p, s, e, id)
    requires Step(p, s, e).state.desc[id].state == Authenticated
    ensures s.desc[id].state == Authenticated && !CopiesBlock(p, s, e, id) && !AuthenticatesInPlace(p, s, e, id)
  {
    assert DescOk(p, s, id);
    if !PastAuthentication(s.desc[id]) { PastAuthenticationComesFrom(p, s, e, id); } else { StaysPast(p, s, e, id); }
    CopyAdvances(p, s, e, id);
    if AuthenticatesInPlace(p, s, e, id) { InPlaceAuthenticates(p, s, e, id); }
  }

  /** As long as the ranges are respected, what was verified at the base of an image still verifies there. */
  lemma {:induction false} AuthenticatedBytesVerify(p: Platform, r: Run, id: nat)
    requires PlatformOk(p) && After(p, r).Some? && RangesRespected(p, r) && id in p.images && VerifiedAtBase(p, r, id)
    requires Held(p, After(p, r).value, id) && After(p, r).value.desc[id].state == Authenticated
    ensures p.verify(id, Range(p, After(p, r).value, id))
  {
    match r
    case Start(_) =>
    case Then(before, e) =>
      var s := After(p, before).value;
      RunKeepsHeld(p, before);
      if Authenticates(p, s, e, id) {
        AuthenticatesRange(p, s, e, id);
      } else {
        AuthenticatedBefore(p, s, e, id);
        OthersKeepRange(p, s, e, id);
        AuthenticatedBytesVerify(p, before, id);
      }
  }

  /** A copied image is always verified at its base. */
  lemma {:induction false} CopiedIsVerifiedAtBase(p: Platform, r: Run, id: nat)
    requires PlatformOk(p) && After(p, r).Some? && id in p.images && !InPlace(p, r, id)
    requires Held(p, After(p, r).value, id) && After(p, r).value.desc[id].state == Authenticated
    ensures VerifiedAtBase(p, r, id)
  {
    match r
    case Start(_) =>
    case Then(before, e) =>
      var s := After(p, before).value;
      RunKeepsInvariant(p, before);
      if !Authenticates(p, s, e, id) {
        AuthenticatedBefore(p, s, e, id);
        CopiedIsVerifiedAtBase(p, before, id);
      }
  }

  /**
   In a run that respects the ranges, the bytes handed to execution are the bytes that verification
   accepted, if these were read at the image's base; for a copied image they were, and they are its complete
   accepted blocks.
   */
  lemma ExecutedBytesWereVerified(p: Platform, r: Run, id: Uint32)
    requires PlatformOk(p) && After(p, r).Some? && RangesRespected(p, r)
    requires Execute(p, After(p, r).value, id).code == Success
    ensures var s := After(p, r).value;
            && (VerifiedAtBase(p, r, id) ==> p.verify(id, Range(p, s, id)))
            && (!InPlace(p, r, id) ==> VerifiedAtBase(p, r, id) && Range(p, s, id) == Received(p, r, id))
            && Execute(p, s, id).state.mem == s.mem
  {
    if VerifiedAtBase(p, r, id) { AuthenticatedBytesVerify(p, r, id); }
    if !InPlace(p, r, id) {
      CopiedIsVerifiedAtBase(p, r, id);
      BytesAreTheBlocksReceived(p, r, id);
    }
  }

  // ---- images authenticated in place

  /** Two ranges hold the same bytes in every memory exactly when they are the same range. */
  lemma SameBytesExactly(size: nat, a: nat, b: nat, n: nat)
    requires n > 0 && a + n <= size && b + n <= size
    ensures (forall mem: seq<bv8> | |mem| == size :: Read(mem, a, n) == Read(mem, b, n)) <==> a == b
  {
    if a != b {
      var mem := Zeros(size)[a := 1];
      assert Read(mem, a, n)[0] == 1 && Read(mem, b, n)[0] == 0;
    }
  }

  /** The call passes every check before the verdict. */
  predicate AskedInPlace(p: Platform, s: State, c: Call)
    requires Typed(p, s)
  {
    && InPlaceSecureAuth(p, s, Event.Call(c)) && s.desc[c.id].state == Reset
    && !BadSource(c.src, c.imageSize) && p.mapped(c.src, c.imageSize, Secure) && CanAdd(s.loaded, c.id)
  }

  /**
   Whatever the memory holds and whatever the authentication module accepts: what is accepted is what
   lies at the base of the image afterwards.
   */
  ghost predicate VouchesForBase(p: Platform, s: State, c: Call)
    requires Typed(p, s) && c.ImageAuth? && c.id in p.images
  {
    forall mem: seq<bv8>, verify: (nat, seq<bv8>) -> bool
      | |mem| == p.memSize && verify(c.id, Read(mem, c.src, c.imageSize)) ::
      var p1, s1 := p.(verify := verify), s.(mem := mem);
      Auth(p1, s1, c.id, c.src, c.imageSize, true).Done?
      && verify(c.id, Read(Auth(p1, s1, c.id, c.src, c.imageSize, true).state.mem, p.images[c.id].base, c.imageSize))
  }

  /** Right after the call, what is verified is what lies at the base exactly when it was read there. */
  lemma InPlaceVouchesExactly(p: Platform, s: State, c: Call)
    requires PlatformOk(p) && Typed(p, s) && c.ImageAuth? && AskedInPlace(p, s, c)
    requires p.images[c.id].base + c.imageSize <= p.memSize
    ensures VouchesForBase(p, s, c) <==> c.src == p.images[c.id].base
  {
    var base, n := p.images[c.id].base, c.imageSize;
    if c.src != base {
      SameBytesExactly(p.memSize, c.src, base, n);
      var mem: seq<bv8> :| |mem| == p.memSize && Read(mem, c.src, n) != Read(mem, base, n);
      var verify := (id: nat, bytes: seq<bv8>) => bytes == Read(mem, c.src, n);
      assert verify(c.id, Read(mem, c.src, n));
      assert Auth(p.(verify := verify), s.(mem := mem), c.id, c.src, n, true).state.mem == mem;
      assert !verify(c.id, Read(mem, base, n));
    }
  }

  // ---- sound authentications in place

  /** The call reads the image at its base, and the range there is free: what a caller can check. */
  ghost predicate Sound(p: Platform, s: State, c: Call)
    requires Typed(p, s) && c.ImageAuth? && c.id in p.images
  {
    c.src == p.images[c.id].base && NamesFreeRange(p, s, c)
  }

  lemma AcceptedWasAsked(p: Platform, s: State, c: Call)
    requires Typed(p, s) && c.ImageAuth? && AuthenticatesInPlace(p, s, Event.Call(c), c.id)
    ensures AskedInPlace(p, s, c)
  {
  }

  /**
   An accepted authentication in place vouches for the bytes at the base, and every image owns its range
   afterwards, exactly when the call is sound. Neither half of `Sound` is enough: `FwuWitness` has a run with
   free ranges only, `FwuOverlap` one that reads at the base only.
   */
  lemma InPlaceIsSoundExactly(p: Platform, s: State, c: Call)
    requires Inv(p, s) && HeldOk(p, s) && c.ImageAuth? && AuthenticatesInPlace(p, s, Event.Call(c), c.id)
    ensures HeldOk(p, Smc(p, s, c).state) && VouchesForBase(p, s, c) <==> Sound(p, s, c)
  {
    InPlaceAuthKeepsHeldExactly(p, s, c);
    if NamesFreeRange(p, s, c) {
      AcceptedWasAsked(p, s, c);
      assert p.images[c.id].base + p.images[c.id].maxSize <= p.memSize;
      InPlaceVouchesExactly(p, s, c);
    }
  }

  /** If the event is an accepted authentication in place, it vouches for the base. */
  ghost predicate Vouches(p: Platform, s: State, e: Event)
    requires Typed(p, s)
  {
    e.Call? && e.call.ImageAuth? && AuthenticatesInPlace(p, s, e, e.call.id) ==> VouchesForBase(p, s, e.call)
  }

  /** If the event is an accepted authentication in place, it is sound. */
  ghost predicate SoundStep(p: Platform, s: State, e: Event)
    requires Typed(p, s)
  {
    e.Call? && e.call.ImageAuth? && AuthenticatesInPlace(p, s, e, e.call.id) ==> Sound(p, s, e.call)
  }

  ghost predicate AlwaysVouches(p: Platform, r: Run)
    requires PlatformOk(p) && After(p, r).Some?
  {
    r.Then? ==> AlwaysVouches(p, r.before) && Vouches(p, After(p, r.before).value, r.event)
  }

  /** Every accepted authentication in place of the run is sound. */
  ghost predicate AlwaysSound(p: Platform, r: Run)
    requires PlatformOk(p) && After(p, r).Some?
  {
    r.Then? ==> AlwaysSound(p, r.before) && SoundStep(p, After(p, r.before).value, r.event)
  }

  /** Images own their ranges all along and every verdict holds at the base exactly in the sound runs. */
  lemma {:induction false} AlwaysSoundExactly(p: Platform, r: Run)
    requires PlatformOk(p) && After(p, r).Some?
    ensures AlwaysHeld(p, r) && AlwaysVouches(p, r) <==> AlwaysSound(p, r)
  {
    match r
    case Start(_) =>
    case Then(before, e) =>
      AlwaysSoundExactly(p, before);
      RunKeepsInvariant(p, before);
      if AlwaysHeld(p, before) { SoundStepExactly(p, After(p, before).value, e); }
  }

  lemma SoundStepExactly(p: Platform, s: State, e: Event)
    requires Inv(p, s) && HeldOk(p, s) && Step(p, s, e).Done?
    ensures HeldOk(p, Step(p, s, e).state) && Vouches(p, s, e) <==> SoundStep(p, s, e)
  {
    StepKeepsHeldExactly(p, s, e);
    if e.Call? && e.call.ImageAuth? && AuthenticatesInPlace(p, s, e, e.call.id) {
      InPlaceIsSoundExactly(p, s, e.call);
    }
  }

  /** In a sound run every authenticated secure image was verified at its base. */
  lemma {:induction false} SoundIsVerifiedAtBase(p: Platform, r: Run, id: nat)
    requires PlatformOk(p) && After(p, r).Some? && AlwaysSound(p, r)
    requires Held(p, After(p, r).value, id) && After(p, r).value.desc[id].state == Authenticated
    ensures VerifiedAtBase(p, r, id)
  {
    match r
    case Start(_) =>
    case Then(before, e) =>
      var s := After(p, before).value;
      RunKeepsInvariant(p, before);
      if Authenticates(p, s, e, id) {
        SoundReadsAtBase(p, s, e, id);
      } else {
        AuthenticatedBefore(p, s, e, id);
        SoundIsVerifiedAtBase(p, before, id);
      }
  }

  lemma SoundReadsAtBase(p: Platform, s: State, e: Event, id: nat)
    requires Typed(p, s) && Authenticates(p, s, e, id) && p.images[id].secure && SoundStep(p, s, e)
    ensures ReadsAtBase(p, s, e.call)
  {
  }

  /** In a sound run the bytes handed to execution are always the bytes that verification accepted. */
  lemma SoundRunsExecuteVerifiedBytes(p: Platform, r: Run, id: Uint32)
    requires PlatformOk(p) && After(p, r).Some? && AlwaysSound(p, r)
    requires Execute(p, After(p, r).value, id).code == Success
    ensures p.verify(id, Range(p, After(p, r).value, id))
  {
    AlwaysSoundExactly(p, r);
    AlwaysHeldExactly(p, r);
    SoundIsVerifiedAtBase(p, r, id);
    AuthenticatedBytesVerify(p, r, id);
  }
}

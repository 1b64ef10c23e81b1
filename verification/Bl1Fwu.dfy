/**
 The firmware-update service as BL1 runs it: descriptors, table, memory and control state that
 the SMC handlers change in place. Every handler is proved against the transition system of
 `FwuModel`; `Outcome` is `Stop` where the C code fails an assertion or panics.
 */
module Bl1Fwu {
  import opened FwuModel
  import opened FwuInvariant
  import opened FwuTheorems

  datatype Outcome = Return(code: Code) | Stop

  const SMC_IMAGE_COPY: nat := 0x10
  const SMC_IMAGE_AUTH: nat := 0x11
  const SMC_IMAGE_EXECUTE: nat := 0x12
  const SMC_IMAGE_RESUME: nat := 0x13
  const SMC_SEC_IMAGE_DONE: nat := 0x14
  const SMC_UPDATE_DONE: nat := 0x15
  const SMC_IMAGE_RESET: nat := 0x16

  /** The cast `(uint32_t)` of a register. */
  function Low(x: Uintptr): Uint32 { x % 0x1_0000_0000 }

  function FidOf(c: Call): Uint32 {
    match c
    case ImageCopy(_, _, _, _, _) => SMC_IMAGE_COPY
    case ImageAuth(_, _, _, _) => SMC_IMAGE_AUTH
    case ImageExecute(_) => SMC_IMAGE_EXECUTE
    case ImageResume(_) => SMC_IMAGE_RESUME
    case SecImageDone => SMC_SEC_IMAGE_DONE
    case ImageReset(_) => SMC_IMAGE_RESET
    case UpdateDone => SMC_UPDATE_DONE
  }

  /** The call that a function id and its registers stand for. */
  function CallOf(fid: Uint32, x1: Uintptr, x2: Uintptr, x3: Uintptr, x4: Uintptr, preLoadOk: bool, postLoadOk: bool)
    : (c: Option<Call>)
    ensures c == None <==> !(SMC_IMAGE_COPY <= fid <= SMC_IMAGE_RESET)
    ensures c.Some? ==> FidOf(c.value) == fid
  {
    if fid == SMC_IMAGE_COPY then Some(ImageCopy(Low(x1), x2, Low(x3), Low(x4), preLoadOk))
    else if fid == SMC_IMAGE_AUTH then Some(ImageAuth(Low(x1), x2, Low(x3), postLoadOk))
    else if fid == SMC_IMAGE_EXECUTE then Some(ImageExecute(Low(x1)))
    else if fid == SMC_IMAGE_RESUME then Some(ImageResume(x1))
    else if fid == SMC_SEC_IMAGE_DONE then Some(SecImageDone)
    else if fid == SMC_IMAGE_RESET then Some(ImageReset(Low(x1)))
    else if fid == SMC_UPDATE_DONE then Some(UpdateDone)
    else None
  }

  /** Every call can be made: its arguments, in registers whose upper halves are arbitrary, stand for it. */
  lemma CallsComeBack(c: Call, high1: Uint32, high3: Uint32, high4: Uint32)
    ensures var image := if c.ImageCopy? || c.ImageAuth? || c.ImageExecute? || c.ImageReset? then c.id else 0;
            var x1 := if c.ImageResume? then c.param else high1 * 0x1_0000_0000 + image;
            var x2 := if c.ImageCopy? || c.ImageAuth? then c.src else 0;
            var size := if c.ImageCopy? then c.blockSize else if c.ImageAuth? then c.imageSize else 0;
            var x3 := high3 * 0x1_0000_0000 + size;
            var x4 := high4 * 0x1_0000_0000 + (if c.ImageCopy? then c.imageSize else 0);
            CallOf(FidOf(c), x1, x2, x3, x4, c.ImageCopy? && c.preLoadOk, c.ImageAuth? && c.postLoadOk) == Some(c)
  {
  }

  class Service {
    const platform: Platform
    const loadedIds: array<nat>
    const memory: array<bv8>
    var desc: map<nat, Desc>
    var secExecImageId: nat
    var world: World

    ghost function View(): State
      reads this, loadedIds, memory
    {
      State(desc, loadedIds[..], memory[..], secExecImageId, world)
    }

    /** The table and the memory are different objects. */
    ghost predicate Separate() {
      (loadedIds as object) != (memory as object)
    }

    ghost predicate Valid()
      reads this, loadedIds, memory
    {
      Separate() && Inv(platform, View())
    }

    /** The answer and the new state are those of a step of the transition system. */
    ghost predicate Matches(r: Result, outcome: Outcome)
      reads this, loadedIds, memory
    {
      match r
      case Done(s, code) => outcome == Return(code) && View() == s
      case Halted => outcome == Stop
    }

    /** The same, and unless the run has stopped the service is still valid. */
    ghost predicate Follows(r: Result, outcome: Outcome)
      reads this, loadedIds, memory
    {
      Matches(r, outcome) && (r.Done? ==> Valid())
    }

    constructor (platform: Platform, initial: seq<bv8>)
      requires PlatformOk(platform) && |initial| == platform.memSize
      ensures Valid() && fresh(loadedIds) && fresh(memory)
      ensures this.platform == platform && View() == Boot(platform, initial)
    {
      this.platform := platform;
      loadedIds := new nat[MAX_SIMULTANEOUS_IMAGES](_ => INVALID_IMAGE_ID);
      memory := new bv8[|initial|](i requires 0 <= i < |initial| => initial[i]);
      desc := Boot(platform, initial).desc;
      secExecImageId := INVALID_IMAGE_ID;
      world := NonSecure;
      new;
      assert loadedIds[..] == Boot(platform, initial).loaded;
      assert memory[..] == initial;
      RunKeepsInvariant(platform, Start(initial));
    }

    /** `bl1_fwu_smc_handler`: every SMC is a step of the transition system. */
    method SmcHandler(fid: Uint32, x1: Uintptr, x2: Uintptr, x3: Uintptr, x4: Uintptr, preLoadOk: bool,
                      postLoadOk: bool)
      returns (outcome: Outcome)
      requires Valid()
      modifies this, loadedIds, memory
      ensures match CallOf(fid, x1, x2, x3, x4, preLoadOk, postLoadOk)
              case None => outcome == Stop && View() == old(View())
              case Some(c) => Follows(old(Smc(platform, View(), c)), outcome)
    {
      if fid == SMC_IMAGE_COPY {
        outcome := HandleImageCopy(Low(x1), x2, Low(x3), Low(x4), preLoadOk);
      } else if fid == SMC_IMAGE_AUTH {
        outcome := HandleImageAuth(Low(x1), x2, Low(x3), postLoadOk);
      } else if fid == SMC_IMAGE_EXECUTE {
        outcome := HandleImageExecute(Low(x1));
      } else if fid == SMC_IMAGE_RESUME {
        outcome := HandleImageResume(x1);
      } else if fid == SMC_SEC_IMAGE_DONE {
        outcome := HandleSecImageDone();
      } else if fid == SMC_IMAGE_RESET {
        outcome := HandleImageReset(Low(x1));
      } else {
        outcome := Stop;
      }
    }

    /** `bl1_fwu_add_loaded_id`: true on success. */
    method AddLoadedId(id: nat) returns (ok: bool)
      requires Separate()
      modifies loadedIds
      ensures ok == CanAdd(old(loadedIds[..]), id)
      ensures View() == old(View()).(loaded := if ok then Added(old(loadedIds[..]), id) else old(loadedIds[..]))
    {
      var i := 0;
      while i < loadedIds.Length
        invariant 0 <= i <= loadedIds.Length && id !in loadedIds[..i] && loadedIds[..] == old(loadedIds[..])
      {
        if loadedIds[i] == id { return true; }
        i := i + 1;
      }
      assert loadedIds[..i] == loadedIds[..];
      i := 0;
      while i < loadedIds.Length
        invariant 0 <= i <= loadedIds.Length && INVALID_IMAGE_ID !in loadedIds[..i]
        invariant loadedIds[..] == old(loadedIds[..])
      {
        if loadedIds[i] == INVALID_IMAGE_ID {
          FirstSlot(loadedIds[..], INVALID_IMAGE_ID, i);
          loadedIds[i] := id;
          return true;
        }
        i := i + 1;
      }
      assert loadedIds[..i] == loadedIds[..];
      return false;
    }

    /** `bl1_fwu_remove_loaded_id`: true on success. */
    method RemoveLoadedId(id: nat) returns (ok: bool)
      requires Separate()
      modifies loadedIds
      ensures ok == (id in old(loadedIds[..]))
      ensures View() == old(View()).(loaded := Removed(old(loadedIds[..]), id))
    {
      var i := 0;
      while i < loadedIds.Length
        invariant 0 <= i <= loadedIds.Length && id !in loadedIds[..i] && loadedIds[..] == old(loadedIds[..])
      {
        if loadedIds[i] == id {
          FirstSlot(loadedIds[..], id, i);
          loadedIds[i] := INVALID_IMAGE_ID;
          return true;
        }
        i := i + 1;
      }
      assert loadedIds[..i] == loadedIds[..];
      return false;
    }

    /** `bl1_fwu_image_check_overlaps`. */
    method ImageCheckOverlaps(id: nat) returns (v: Verdict)
      requires Typed(platform, View()) && id in platform.images && desc[id].imageSize > 0
      ensures v == CheckOverlaps(platform, View(), id, 0)
    {
      var base, end := platform.images[id].base, EndOf(platform.images[id].base, desc[id].imageSize);
      var i := 0;
      while i < loadedIds.Length
        invariant 0 <= i <= loadedIds.Length
        invariant CheckOverlaps(platform, View(), id, 0) == CheckOverlaps(platform, View(), id, i)
      {
        var slot := loadedIds[i];
        i := i + 1;
        if slot == INVALID_IMAGE_ID || slot == id { continue; }
        if slot !in desc || desc[slot].state == Reset { return Fault; }
        if desc[slot].imageSize == 0 { continue; }
        var lo := platform.images[slot].base;
        var hi := EndOf(lo, desc[slot].imageSize);
        if !(hi > lo) { return Fault; }
        if !(hi < base || end < lo) { return Overlap; }
      }
      return Clear;
    }

    /** `memcpy`: the source is read before the destination is written. */
    method CopyMemory(dest: nat, src: nat, n: nat)
      requires Separate()
      requires dest + n <= memory.Length && src + n <= memory.Length
      modifies memory
      ensures View() == old(View()).(mem := Write(old(memory[..]), dest, Read(old(memory[..]), src, n)))
    {
      ghost var before := memory[..];
      forall k | dest <= k < dest + n { memory[k] := memory[src + (k - dest)]; }
      WriteIs(before, memory[..], dest, Read(before, src, n));
    }

    /** `zero_normalmem`. */
    method ZeroMemory(at: nat, n: nat)
      requires Separate()
      requires at + n <= memory.Length
      modifies memory
      ensures View() == old(View()).(mem := Write(old(memory[..]), at, Zeros(n)))
    {
      ghost var before := memory[..];
      forall k | at <= k < at + n { memory[k] := 0; }
      WriteIs(before, memory[..], at, Zeros(n));
    }

    /** The fields of one descriptor. */
    method SetDesc(id: nat, d: Desc)
      modifies this`desc
      ensures View() == WithDesc(old(View()), id, d)
    {
      desc := desc[id := d];
    }

    /** `bl1_fwu_image_copy`. */
    method HandleImageCopy(id: Uint32, src: Uintptr, blockSize: Uint32, imageSize: Uint32, preLoadOk: bool)
      returns (outcome: Outcome)
      requires Valid()
      modifies this, loadedIds, memory
      ensures Follows(old(Copy(platform, View(), id, src, blockSize, imageSize, preLoadOk)), outcome)
    {
      ghost var s := View();
      CopyKeeps(platform, s, id, src, blockSize, imageSize, preLoadOk);
      if id !in platform.images { return Return(EPERM); }
      if world == Secure { return Return(EPERM); }
      if !platform.images[id].secure { return Return(EPERM); }
      assert DescOk(platform, s, id);
      if desc[id].state != Reset && desc[id].state != Copying { return Return(EPERM); }
      if BadSource(src, blockSize) { return Return(ENOMEM); }
      if desc[id].state == Copying {
        if desc[id].copiedSize == 0 || desc[id].imageSize == 0 || desc[id].copiedSize >= desc[id].imageSize {
          return Stop;
        }
      } else {
        var refused := StartCopy(id, imageSize);
        if refused.Some? { return refused.value; }
      }
      outcome := CopyOneBlock(id, src, blockSize, preLoadOk);
    }

    /** The first copy of an image, lines 284-319: record its size and check its area, or refuse. */
    method StartCopy(id: nat, imageSize: Uint32) returns (refused: Option<Outcome>)
      requires Typed(platform, View()) && id in platform.images && desc[id].state == Reset
      modifies this
      ensures world == old(world) && secExecImageId == old(secExecImageId)
      ensures
        var max := platform.images[id].maxSize;
        if imageSize == 0 || imageSize > max then refused == Some(Return(ENOMEM)) && desc == old(desc)
        else
          var sized := old(Sized(platform, View(), id, imageSize));
          match CheckOverlaps(platform, sized, id, 0)
          case Fault => refused == Some(Stop)
          case Overlap => refused == Some(Return(EPERM)) && desc == old(desc)[id := sized.desc[id].(imageSize := 0)]
          case Clear => refused == None && desc == old(desc)[id := Desc(Reset, imageSize, 0)]
    {
      if imageSize == 0 { return Some(Return(ENOMEM)); }
      if imageSize > platform.images[id].maxSize { return Some(Return(ENOMEM)); }
      desc := desc[id := desc[id].(imageSize := imageSize)];
      var v := ImageCheckOverlaps(id);
      if v == Fault { return Some(Stop); }
      if v == Overlap {
        desc := desc[id := desc[id].(imageSize := 0)];
        return Some(Return(EPERM));
      }
      desc := desc[id := desc[id].(copiedSize := 0)];
      return None;
    }

    /** The end of `bl1_fwu_image_copy`: lines 321-361. */
    method CopyOneBlock(id: nat, src: Uintptr, blockSize: Uint32, preLoadOk: bool) returns (outcome: Outcome)
      requires Separate() && PlatformOk(platform) && Typed(platform, View())
      requires id in platform.images && platform.images[id].secure
      requires desc[id].copiedSize < desc[id].imageSize <= platform.images[id].maxSize
      modifies this, loadedIds, memory
      ensures Matches(old(CopyBlock(platform, View(), id, src, blockSize, preLoadOk)), outcome)
    {
      var remaining := desc[id].imageSize - desc[id].copiedSize;
      var n := if blockSize > remaining then remaining else blockSize;
      if !platform.mapped(src, n, world) { return Return(ENOMEM); }
      var added := AddLoadedId(id);
      if !added { return Return(ENOMEM); }
      if desc[id].state == Reset && !preLoadOk { return Return(EPERM); }
      assert platform.images[id].base + platform.images[id].maxSize <= platform.memSize;
      StoreBlock(id, src, n);
      return Return(Success);
    }

    /** Lines 351-358: copy the clipped block and advance. */
    method StoreBlock(id: nat, src: Uintptr, n: nat)
      requires Separate() && Typed(platform, View()) && id in platform.images
      requires desc[id].copiedSize + n <= desc[id].imageSize
      requires platform.images[id].base + desc[id].imageSize <= platform.memSize && src + n <= platform.memSize
      modifies this`desc, memory
      ensures View() == Stored(platform, old(View()), id, src, n)
    {
      var d := desc[id];
      CopyMemory(platform.images[id].base + d.copiedSize, src, n);
      var state := if n == d.imageSize - d.copiedSize then Copied else Copying;
      ghost var mid := View();
      SetDesc(id, Desc(state, d.imageSize, d.copiedSize + n));
      assert View() == WithDesc(mid, id, Desc(state, d.imageSize, d.copiedSize + n));
    }

    /** `bl1_fwu_image_auth`. */
    method HandleImageAuth(id: Uint32, src: Uintptr, imageSize: Uint32, postLoadOk: bool) returns (outcome: Outcome)
      requires Valid()
      modifies this, loadedIds, memory
      ensures Follows(old(Auth(platform, View(), id, src, imageSize, postLoadOk)), outcome)
    {
      ghost var s := View();
      AuthKeeps(platform, s, id, src, imageSize, postLoadOk);
      if id !in platform.images { return Return(EPERM); }
      assert DescOk(platform, s, id);
      if world == Secure {
        if desc[id].state != Reset { return Return(EPERM); }
      } else if platform.images[id].secure {
        if desc[id].state != Copied { return Return(EPERM); }
      } else {
        if desc[id].state != Reset { return Return(EPERM); }
      }
      var base, size := src as nat, imageSize as nat;
      if desc[id].state == Copied {
        base, size := platform.images[id].base, desc[id].imageSize;
      } else {
        if BadSource(src, imageSize) { return Return(ENOMEM); }
        if !platform.mapped(src, imageSize, if platform.images[id].secure then Secure else NonSecure) {
          return Return(ENOMEM);
        }
        var added := AddLoadedId(id);
        if !added { return Return(ENOMEM); }
        desc := desc[id := desc[id].(imageSize := size)];
      }
      assert old(Auth(platform, View(), id, src, imageSize, postLoadOk))
          == Verified(platform, View(), id, base, size, postLoadOk);
      outcome := FinishAuth(id, base, size, postLoadOk);
    }

    /** The end of `bl1_fwu_image_auth`: lines 441-497. */
    method FinishAuth(id: nat, base: nat, size: nat, postLoadOk: bool) returns (outcome: Outcome)
      requires Separate() && PlatformOk(platform) && Typed(platform, View()) && id in platform.images
      requires desc[id].state == Copied ==> base + size <= platform.memSize
      modifies this, loadedIds, memory
      ensures Matches(old(Verified(platform, View(), id, base, size, postLoadOk)), outcome)
    {
      var good := platform.verify(id, Read(memory[..], base, size));
      if !good {
        if desc[id].state == Copied {
          ZeroMemory(base, size);
          desc := desc[id := desc[id].(state := Reset)];
        }
        var _ := RemoveLoadedId(id);
        return Return(EAUTH);
      }
      desc := desc[id := desc[id].(state := Authenticated)];
      if !postLoadOk { return Stop; }
      return Return(Success);
    }

    /** `bl1_fwu_image_execute`, with `bl1_prepare_next_image`. */
    method HandleImageExecute(id: Uint32) returns (outcome: Outcome)
      requires Valid()
      modifies this
      ensures Follows(old(Execute(platform, View(), id)), outcome)
    {
      ExecuteKeeps(platform, View(), id);
      if id !in platform.images || world == Secure || !platform.images[id].secure
         || !platform.images[id].executable || desc[id].state != Authenticated {
        return Return(EPERM);
      }
      desc := desc[id := desc[id].(state := Executed)];
      secExecImageId := id;
      world := Secure;
      return Return(Success);
    }

    /** `bl1_fwu_image_resume`. */
    method HandleImageResume(param: int) returns (outcome: Outcome)
      requires Valid()
      modifies this
      ensures Follows(old(Resume(platform, View(), param)), outcome)
    {
      ResumeKeeps(platform, View(), param);
      var id := secExecImageId;
      if world == NonSecure {
        if id !in platform.images { return Return(EPERM); }
      } else {
        if id !in platform.images { return Stop; }
      }
      if !platform.images[id].secure { return Stop; }
      if !platform.images[id].executable { return Stop; }
      if world == Secure {
        if desc[id].state != Executed { return Stop; }
        desc := desc[id := desc[id].(state := Interrupted)];
        world := NonSecure;
      } else {
        if desc[id].state != Interrupted { return Stop; }
        desc := desc[id := desc[id].(state := Executed)];
        world := Secure;
      }
      return Return(Param(param));
    }

    /** `bl1_fwu_sec_image_done`. */
    method HandleSecImageDone() returns (outcome: Outcome)
      requires Valid()
      modifies this, loadedIds
      ensures Follows(old(ImageDone(platform, View())), outcome)
    {
      DoneKeeps(platform, View());
      if world == NonSecure { return Return(EPERM); }
      var id := secExecImageId;
      if id !in platform.images || !platform.images[id].secure || !platform.images[id].executable
         || desc[id].state != Executed {
        return Stop;
      }
      var removed := RemoveLoadedId(id);
      if !removed { return Stop; }
      desc := desc[id := desc[id].(state := Reset)];
      secExecImageId := INVALID_IMAGE_ID;
      world := NonSecure;
      return Return(Success);
    }

    /** `bl1_fwu_image_reset`. */
    method HandleImageReset(id: Uint32) returns (outcome: Outcome)
      requires Valid()
      modifies this, loadedIds, memory
      ensures Follows(old(ResetImage(platform, View(), id)), outcome)
    {
      ghost var s := View();
      ResetKeeps(platform, s, id);
      if id !in platform.images || world == Secure { return Return(EPERM); }
      assert DescOk(platform, s, id);
      if desc[id].state == Reset { return Return(Success); }
      if desc[id].state == Executed { return Stop; }
      outcome := ResetUnderway(id);
    }

    /** Lines 712-736: an image under way is taken off the table, zeroed and reset. */
    method ResetUnderway(id: Uint32) returns (outcome: Outcome)
      requires Separate() && Typed(platform, View()) && id in platform.images && world == NonSecure
      requires desc[id].state != Reset && desc[id].state != Executed
      requires platform.images[id].secure ==> platform.images[id].base + desc[id].copiedSize <= platform.memSize
      modifies this, loadedIds, memory
      ensures Matches(old(ResetImage(platform, View(), id)), outcome)
    {
      var removed := RemoveLoadedId(id);
      if !removed { return Return(EPERM); }
      if desc[id].copiedSize != 0 && !platform.images[id].secure { return Stop; }
      if desc[id].copiedSize != 0 { ZeroMemory(platform.images[id].base, desc[id].copiedSize); }
      else { NoZeros(memory[..], platform.images[id].base); }
      SetDesc(id, Desc(Reset, 0, 0));
      return Return(Success);
    }
  }

  lemma NoZeros(mem: seq<bv8>, at: nat)
    ensures Write(mem, at, Zeros(0)) == mem
  {
  }

  lemma WriteIs(before: seq<bv8>, after: seq<bv8>, at: nat, data: seq<bv8>)
    requires at + |data| <= |before| == |after|
    requires forall k :: 0 <= k < |before| ==> after[k] == if at <= k < at + |data| then data[k - at] else before[k]
    ensures after == Write(before, at, data)
  {
  }

  lemma {:induction false} FirstSlot(loaded: seq<nat>, id: nat, k: nat)
    requires k < |loaded| && loaded[k] == id && id !in loaded[..k]
    ensures SlotOf(loaded, id) == k
  {
    assert forall j :: 0 <= j < k ==> loaded[..k][j] == loaded[j];
    assert SlotOf(loaded, id) >= k;
  }
}

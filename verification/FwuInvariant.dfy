/**
 What every firmware-update run keeps: the table of loaded ids has no duplicate and lists
 every image under way, images being copied never overlap, and the secure world has control
 exactly when one secure image, the one in `secExec`, is executing.
 */
module FwuInvariant {
  import opened FwuModel

  ghost predicate NoDuplicates(loaded: seq<nat>) {
    forall i, j :: 0 <= i < j < |loaded| && loaded[i] == loaded[j] ==> loaded[i] == INVALID_IMAGE_ID
  }

  ghost predicate TableOk(p: Platform, s: State)
    requires Typed(p, s)
  {
    && NoDuplicates(s.loaded)
    && (forall id :: id in s.loaded && id != INVALID_IMAGE_ID ==> id in p.images && id != p.boot)
    && (forall id :: id in p.images && id != p.boot && s.desc[id].state != Reset ==> id in s.loaded)
  }

  ghost predicate DescOk(p: Platform, s: State, id: nat)
    requires Typed(p, s) && id in p.images
  {
    var d, max := s.desc[id], p.images[id].maxSize;
    if id == p.boot then d.state == Executed && d.copiedSize == 0
    else if !p.images[id].secure then (d.state == Reset || d.state == Authenticated) && d.copiedSize == 0
    else
      && d.copiedSize <= max
      && (d.state == Copying ==> 0 < d.copiedSize < d.imageSize <= max)
      && (d.state == Copied ==> 0 < d.copiedSize == d.imageSize <= max)
  }

  ghost predicate DescsOk(p: Platform, s: State)
    requires Typed(p, s)
  {
    forall id :: id in p.images ==> DescOk(p, s, id)
  }

  predicate BeingCopied(d: Desc) { d.state == Copying || d.state == Copied }

  predicate Apart(p: Platform, s: State, a: nat, b: nat)
    requires Typed(p, s) && a in p.images && b in p.images
  {
    || p.images[a].base + s.desc[a].imageSize <= p.images[b].base
    || p.images[b].base + s.desc[b].imageSize <= p.images[a].base
  }

  ghost predicate CopiesApart(p: Platform, s: State)
    requires Typed(p, s)
  {
    forall a, b :: a in p.images && b in p.images && a != b && BeingCopied(s.desc[a]) && BeingCopied(s.desc[b])
      ==> Apart(p, s, a, b)
  }

  ghost predicate ControlOk(p: Platform, s: State)
    requires Typed(p, s)
  {
    && (s.secExec != INVALID_IMAGE_ID ==>
          s.secExec in p.images && p.images[s.secExec].secure && p.images[s.secExec].executable)
    && (s.world == Secure ==> s.secExec != INVALID_IMAGE_ID && s.desc[s.secExec].state == Executed)
    && (forall id :: id in p.images && id != p.boot && s.desc[id].state == Executed ==>
          s.world == Secure && id == s.secExec)
  }

  ghost predicate Inv(p: Platform, s: State) {
    PlatformOk(p) && Typed(p, s) && TableOk(p, s) && DescsOk(p, s) && CopiesApart(p, s) && ControlOk(p, s)
  }

  // ---- the table under insertion and removal

  lemma AddedKeeps(loaded: seq<nat>, id: nat)
    requires NoDuplicates(loaded) && CanAdd(loaded, id) && id != INVALID_IMAGE_ID
    ensures NoDuplicates(Added(loaded, id)) && id in Added(loaded, id) && |Added(loaded, id)| == |loaded|
    ensures forall x :: x != INVALID_IMAGE_ID ==> (x in Added(loaded, id) <==> x in loaded || x == id)
  {
    if id !in loaded {
      var k := SlotOf(loaded, INVALID_IMAGE_ID);
      var after := loaded[k := id];
      assert after[k] == id;
      forall x | x != INVALID_IMAGE_ID && x in loaded ensures x in after {
        var j :| 0 <= j < |loaded| && loaded[j] == x;
        assert after[j] == x;
      }
    }
  }

  lemma RemovedKeeps(loaded: seq<nat>, id: nat)
    requires NoDuplicates(loaded) && id != INVALID_IMAGE_ID
    ensures NoDuplicates(Removed(loaded, id)) && |Removed(loaded, id)| == |loaded|
    ensures forall x :: x != INVALID_IMAGE_ID ==> (x in Removed(loaded, id) <==> x in loaded && x != id)
  {
    if id in loaded {
      var k := SlotOf(loaded, id);
      var after := loaded[k := INVALID_IMAGE_ID];
      forall x | x != INVALID_IMAGE_ID && x in loaded && x != id ensures x in after {
        var j :| 0 <= j < |loaded| && loaded[j] == x;
        assert after[j] == x;
      }
    }
  }

  lemma NoWrap(base: nat, size: nat)
    requires 0 < size && base + size <= UINTPTR_MAX + 1
    ensures EndOf(base, size) == base + size - 1
  {
  }

  lemma ClearSlotIsApart(p: Platform, s: State, id: nat, other: nat)
    requires Typed(p, s) && id in p.images && other in p.images && other != id && other != INVALID_IMAGE_ID
    requires 0 < s.desc[id].imageSize && p.images[id].base + s.desc[id].imageSize <= UINTPTR_MAX + 1
    requires 0 < s.desc[other].imageSize && p.images[other].base + s.desc[other].imageSize <= UINTPTR_MAX + 1
    requires SlotVerdict(p, s, id, other) == Clear
    ensures Apart(p, s, id, other)
  {
    NoWrap(p.images[id].base, s.desc[id].imageSize);
    NoWrap(p.images[other].base, s.desc[other].imageSize);
  }

  /** A clear verdict over the whole table keeps the new image apart from every loaded one. */
  lemma ClearIsApart(p: Platform, s: State, id: nat)
    requires PlatformOk(p) && Typed(p, s) && id in p.images && p.images[id].secure
    requires 0 < s.desc[id].imageSize <= p.images[id].maxSize
    requires CheckOverlaps(p, s, id, 0) == Clear
    ensures forall other | other in s.loaded && other in p.images && other != id && p.images[other].secure
              && 0 < s.desc[other].imageSize <= p.images[other].maxSize :: Apart(p, s, id, other)
  {
    forall other | other in s.loaded && other in p.images && other != id && p.images[other].secure
      && 0 < s.desc[other].imageSize <= p.images[other].maxSize
      ensures Apart(p, s, id, other)
    {
      var k :| 0 <= k < |s.loaded| && s.loaded[k] == other;
      assert SlotVerdict(p, s, id, s.loaded[k]) == Clear;
      assert p.images[other].base + p.images[other].maxSize <= p.memSize;
      ClearSlotIsApart(p, s, id, other);
    }
  }

  // ---- every step keeps the invariant

  /** `s1` differs from `s` in the descriptor of `id`, in the table at most by `id`, and in memory. */
  ghost predicate ChangesOnly(p: Platform, s: State, s1: State, id: nat)
    requires Typed(p, s) && Typed(p, s1)
  {
    && (forall x :: x in p.images && x != id ==> s1.desc[x] == s.desc[x])
    && (forall x :: x != INVALID_IMAGE_ID && x != id ==> (x in s1.loaded <==> x in s.loaded))
    && NoDuplicates(s1.loaded)
  }

  lemma ChangeKeepsTable(p: Platform, s: State, s1: State, id: nat)
    requires Inv(p, s) && Typed(p, s1) && ChangesOnly(p, s, s1, id)
    requires id in p.images && id != p.boot && (s1.desc[id].state != Reset ==> id in s1.loaded)
    ensures TableOk(p, s1)
  {
    forall x | x in p.images && x != p.boot && s1.desc[x].state != Reset ensures x in s1.loaded {
      if x != id { assert s.desc[x].state != Reset; }
    }
  }

  lemma ChangeKeepsCopies(p: Platform, s: State, s1: State, id: nat)
    requires Inv(p, s) && Typed(p, s1) && ChangesOnly(p, s, s1, id)
    requires id in p.images && DescOk(p, s1, id)
    requires BeingCopied(s1.desc[id]) ==>
      forall x :: x in p.images && x != id && BeingCopied(s.desc[x]) ==> Apart(p, s1, id, x)
    ensures DescsOk(p, s1) && CopiesApart(p, s1)
  {
    forall x | x in p.images ensures DescOk(p, s1, x) {
      assert DescOk(p, s, x);
    }
    forall x, y | x in p.images && y in p.images && x != y && BeingCopied(s1.desc[x]) && BeingCopied(s1.desc[y])
      ensures Apart(p, s1, x, y)
    {
      if x != id && y != id { assert Apart(p, s, x, y); }
      else if x == id { assert Apart(p, s1, id, y); }
      else { assert Apart(p, s1, id, x); }
    }
  }

  lemma ChangeKeepsControl(p: Platform, s: State, s1: State, id: nat)
    requires Inv(p, s) && Typed(p, s1) && ChangesOnly(p, s, s1, id)
    requires id in p.images && id != p.boot && s1.secExec == s.secExec && s1.world == s.world
    requires s1.desc[id].state != Executed && s.desc[id].state != Executed
    ensures ControlOk(p, s1)
  {
    forall x | x in p.images && x != p.boot && s1.desc[x].state == Executed
      ensures s1.world == Secure && x == s1.secExec
    {
      assert s.desc[x].state == Executed;
    }
  }

  lemma ChangeKeeps(p: Platform, s: State, s1: State, id: nat)
    requires Inv(p, s) && Typed(p, s1) && ChangesOnly(p, s, s1, id)
    requires id in p.images && id != p.boot && (s1.desc[id].state != Reset ==> id in s1.loaded)
    requires DescOk(p, s1, id)
    requires BeingCopied(s1.desc[id]) ==>
      forall x :: x in p.images && x != id && BeingCopied(s.desc[x]) ==> Apart(p, s1, id, x)
    requires s1.secExec == s.secExec && s1.world == s.world
    requires s1.desc[id].state != Executed && s.desc[id].state != Executed
    ensures Inv(p, s1)
  {
    ChangeKeepsTable(p, s, s1, id);
    ChangeKeepsCopies(p, s, s1, id);
    ChangeKeepsControl(p, s, s1, id);
  }

  lemma CopyBlockKeeps(p: Platform, s: State, id: nat, src: Uintptr, blockSize: Uint32, preLoadOk: bool)
    requires Inv(p, s) && id in p.images && id != p.boot && p.images[id].secure
    requires s.desc[id].state == Reset || s.desc[id].state == Copying
    requires s.desc[id].copiedSize < s.desc[id].imageSize <= p.images[id].maxSize && blockSize > 0
    requires forall x :: x in p.images && x != id && BeingCopied(s.desc[x]) ==> Apart(p, s, id, x)
    ensures var r := CopyBlock(p, s, id, src, blockSize, preLoadOk); r.Done? && Inv(p, r.state)
  {
    var r := CopyBlock(p, s, id, src, blockSize, preLoadOk);
    assert DescOk(p, s, id);
    if r.state != s {
      AddedKeeps(s.loaded, id);
      assert forall x :: x in p.images && x != id && BeingCopied(s.desc[x]) ==> Apart(p, r.state, id, x) by {
        forall x | x in p.images && x != id && BeingCopied(s.desc[x]) ensures Apart(p, r.state, id, x) {
          assert Apart(p, s, id, x);
        }
      }
      ChangeKeeps(p, s, r.state, id);
    }
  }

  /** The first block of an image whose area the check found clear. */
  lemma FirstBlockKeeps(p: Platform, s: State, id: Uint32, src: Uintptr, blockSize: Uint32, imageSize: Uint32,
                        preLoadOk: bool)
    requires Inv(p, s) && id in p.images && id != p.boot && p.images[id].secure && s.desc[id].state == Reset
    requires 0 < imageSize <= p.images[id].maxSize && blockSize > 0
    requires CheckOverlaps(p, WithDesc(s, id, s.desc[id].(imageSize := imageSize)), id, 0) == Clear
    ensures var r := CopyBlock(p, WithDesc(s, id, Desc(Reset, imageSize, 0)), id, src, blockSize, preLoadOk);
            r.Done? && Inv(p, r.state)
  {
    var s1 := WithDesc(s, id, s.desc[id].(imageSize := imageSize));
    var s2 := WithDesc(s, id, Desc(Reset, imageSize, 0));
    ClearIsApart(p, s1, id);
    forall x | x in p.images && x != id && BeingCopied(s2.desc[x]) ensures Apart(p, s2, id, x) {
      assert DescOk(p, s, x);
      assert x in s1.loaded;
      assert Apart(p, s1, id, x);
    }
    ChangeKeeps(p, s, s2, id);
    CopyBlockKeeps(p, s2, id, src, blockSize, preLoadOk);
  }

  /** The first copy of an image: its block, or a size that is recorded or cleared. */
  lemma FirstCopyKeeps(p: Platform, s: State, id: Uint32, src: Uintptr, blockSize: Uint32, imageSize: Uint32,
                       preLoadOk: bool)
    requires Inv(p, s) && id in p.images && s.world == NonSecure && p.images[id].secure && s.desc[id].state == Reset
    ensures var r := Copy(p, s, id, src, blockSize, imageSize, preLoadOk); r.Done? ==> Inv(p, r.state)
  {
    var r := Copy(p, s, id, src, blockSize, imageSize, preLoadOk);
    assert DescOk(p, s, id);
    if r.Done? && r.state != s {
      if CheckOverlaps(p, WithDesc(s, id, s.desc[id].(imageSize := imageSize)), id, 0) == Clear {
        FirstBlockKeeps(p, s, id, src, blockSize, imageSize, preLoadOk);
      } else {
        ChangeKeeps(p, s, r.state, id);
      }
    }
  }

  lemma NextCopyKeeps(p: Platform, s: State, id: Uint32, src: Uintptr, blockSize: Uint32, imageSize: Uint32,
                      preLoadOk: bool)
    requires Inv(p, s) && id in p.images && s.world == NonSecure && p.images[id].secure && s.desc[id].state == Copying
    ensures var r := Copy(p, s, id, src, blockSize, imageSize, preLoadOk); r.Done? ==> Inv(p, r.state)
  {
    assert DescOk(p, s, id);
    if !BadSource(src, blockSize) {
      assert forall x :: x in p.images && x != id && BeingCopied(s.desc[x]) ==> Apart(p, s, id, x);
      CopyBlockKeeps(p, s, id, src, blockSize, preLoadOk);
    }
  }

  lemma CopyKeeps(p: Platform, s: State, id: Uint32, src: Uintptr, blockSize: Uint32, imageSize: Uint32,
                  preLoadOk: bool)
    requires Inv(p, s)
    ensures var r := Copy(p, s, id, src, blockSize, imageSize, preLoadOk); r.Done? ==> Inv(p, r.state)
  {
    if id in p.images && s.world == NonSecure && p.images[id].secure {
      if s.desc[id].state == Reset { FirstCopyKeeps(p, s, id, src, blockSize, imageSize, preLoadOk); }
      else if s.desc[id].state == Copying { NextCopyKeeps(p, s, id, src, blockSize, imageSize, preLoadOk); }
    }
  }

  lemma VerifiedKeeps(p: Platform, s: State, id: nat, base: nat, size: nat, postLoadOk: bool)
    requires Inv(p, s) && id in p.images && id in s.loaded && id != p.boot
    requires s.desc[id].state == Reset || s.desc[id].state == Copied
    ensures var r := Verified(p, s, id, base, size, postLoadOk); r.Done? ==> Inv(p, r.state)
  {
    RemovedKeeps(s.loaded, id);
    assert DescOk(p, s, id);
    var r := Verified(p, s, id, base, size, postLoadOk);
    if r.Done? { ChangeKeeps(p, s, r.state, id); }
  }

  lemma AuthKeeps(p: Platform, s: State, id: Uint32, src: Uintptr, imageSize: Uint32, postLoadOk: bool)
    requires Inv(p, s)
    ensures var r := Auth(p, s, id, src, imageSize, postLoadOk); r.Done? ==> Inv(p, r.state)
  {
    if id in p.images && s.desc[id].state == AuthState(p, s, id) {
      assert DescOk(p, s, id);
      var d := s.desc[id];
      if d.state == Copied {
        VerifiedKeeps(p, s, id, p.images[id].base, d.imageSize, postLoadOk);
      } else if CanAdd(s.loaded, id) {
        AddedKeeps(s.loaded, id);
        var s1 := WithDesc(s.(loaded := Added(s.loaded, id)), id, d.(imageSize := imageSize));
        ChangeKeeps(p, s, s1, id);
        VerifiedKeeps(p, s1, id, src, imageSize, postLoadOk);
      }
    }
  }

  /** The steps that hand control to the other world. */
  lemma SwitchKeeps(p: Platform, s: State, s1: State, id: nat)
    requires Inv(p, s) && Typed(p, s1) && ChangesOnly(p, s, s1, id) && s.world != s1.world
    requires id in p.images && id != p.boot && p.images[id].secure && p.images[id].executable
    requires s1.desc[id].state == (if s1.world == Secure then Executed else s1.desc[id].state)
    requires s.world == Secure ==> s.secExec == id && s1.desc[id].state in {Reset, Interrupted}
    requires s1.secExec == id || (s1.secExec == INVALID_IMAGE_ID && s1.world == NonSecure)
    requires s1.desc[id].state != Reset ==> id in s1.loaded
    requires s1.desc[id].copiedSize == s.desc[id].copiedSize && !BeingCopied(s1.desc[id])
    ensures Inv(p, s1)
  {
    assert DescOk(p, s, id);
    ChangeKeepsTable(p, s, s1, id);
    ChangeKeepsCopies(p, s, s1, id);
    forall x | x in p.images && x != p.boot && s1.desc[x].state == Executed
      ensures s1.world == Secure && x == s1.secExec
    {
    }
  }

  lemma ResetKeeps(p: Platform, s: State, id: Uint32)
    requires Inv(p, s)
    ensures var r := ResetImage(p, s, id); r.Done? ==> Inv(p, r.state)
  {
    var r := ResetImage(p, s, id);
    if r.Done? && r.state != s {
      assert DescOk(p, s, id);
      RemovedKeeps(s.loaded, id);
      ChangeKeeps(p, s, r.state, id);
    }
  }

  lemma DoneKeeps(p: Platform, s: State)
    requires Inv(p, s)
    ensures var r := ImageDone(p, s); r.Done? ==> Inv(p, r.state)
  {
    var r := ImageDone(p, s);
    if r.Done? && r.state != s {
      assert DescOk(p, s, s.secExec);
      RemovedKeeps(s.loaded, s.secExec);
      SwitchKeeps(p, s, r.state, s.secExec);
    }
  }

  lemma ExecuteKeeps(p: Platform, s: State, id: Uint32)
    requires Inv(p, s)
    ensures var r := Execute(p, s, id); r.Done? ==> Inv(p, r.state)
  {
    var r := Execute(p, s, id);
    if r.state != s {
      assert DescOk(p, s, id);
      SwitchKeeps(p, s, r.state, id);
    }
  }

  lemma ResumeKeeps(p: Platform, s: State, param: int)
    requires Inv(p, s)
    ensures var r := Resume(p, s, param); r.Done? ==> Inv(p, r.state)
  {
    var r := Resume(p, s, param);
    if r.Done? && r.state != s {
      assert DescOk(p, s, s.secExec);
      SwitchKeeps(p, s, r.state, s.secExec);
    }
  }

  lemma StoreKeeps(p: Platform, s: State, mem: seq<bv8>)
    requires Inv(p, s) && |mem| == p.memSize
    ensures Inv(p, s.(mem := mem))
  {
    var s1 := s.(mem := mem);
    assert forall x :: x in p.images ==> DescOk(p, s, x) && DescOk(p, s1, x);
    assert forall a, b :: a in p.images && b in p.images ==> Apart(p, s1, a, b) == Apart(p, s, a, b);
  }

  lemma StepKeeps(p: Platform, s: State, e: Event)
    requires Inv(p, s)
    ensures var r := Step(p, s, e); r.Done? ==> Inv(p, r.state)
  {
    match e
    case Store(at, data) => StoreKeeps(p, s, Write(s.mem, at, data));
    case Call(c) =>
      match c {
        case ImageCopy(id, src, blockSize, imageSize, preLoadOk) =>
          CopyKeeps(p, s, id, src, blockSize, imageSize, preLoadOk);
        case ImageAuth(id, src, imageSize, postLoadOk) => AuthKeeps(p, s, id, src, imageSize, postLoadOk);
        case ImageExecute(id) => ExecuteKeeps(p, s, id);
        case ImageResume(param) => ResumeKeeps(p, s, param);
        case SecImageDone => DoneKeeps(p, s);
        case ImageReset(id) => ResetKeeps(p, s, id);
        case UpdateDone =>
      }
  }

  // ---- runs

  datatype Option<T> = None | Some(value: T)

  /** The state a run ends in; `None` when one of its steps halted. */
  ghost function After(p: Platform, r: Run): (o: Option<State>)
    requires PlatformOk(p)
    ensures o.Some? ==> Typed(p, o.value)
  {
    match r
    case Start(mem) =>
      if |mem| == p.memSize then Some(Boot(p, mem)) else None
    case Then(before, e) =>
      match After(p, before)
      case None => None
      case Some(s) =>
        match Step(p, s, e)
        case Halted => None
        case Done(s1, _) => Some(s1)
  }

  lemma {:induction false} RunKeepsInvariant(p: Platform, r: Run)
    requires PlatformOk(p) && After(p, r).Some?
    ensures Inv(p, After(p, r).value)
  {
    match r
    case Start(mem) =>
    case Then(before, e) =>
      RunKeepsInvariant(p, before);
      StepKeeps(p, After(p, before).value, e);
  }
}

/**
 What callers of the firmware-update service can rely on over every run: which C assertions
 can fail at all, when the table of loaded ids agrees with the image states, that only an
 authenticated image ever runs, and that every copied image is complete after finitely many
 blocks.
 */
module FwuTheorems {
  import opened FwuModel
  import opened FwuInvariant

  // ---- which steps halt

  /**
   A slot on which the overlap check's own assertions fail: the image is reset although listed
   (line 192), or its last byte is not after its first one (line 207).
   */
  predicate BadSlot(p: Platform, s: State, id: nat, slot: nat)
    requires Typed(p, s)
  {
    && slot != INVALID_IMAGE_ID && slot != id
    && (slot in s.desc ==>
          || s.desc[slot].state == Reset
          || (s.desc[slot].imageSize > 0 && EndOf(p.images[slot].base, s.desc[slot].imageSize) <= p.images[slot].base))
  }

  /** The slot holds an image whose bytes meet those that `id` would take. */
  predicate MeetingSlot(p: Platform, s: State, id: nat, imageSize: nat, slot: nat)
    requires Typed(p, s) && id in p.images && imageSize > 0
  {
    && slot in s.desc && slot != id && s.desc[slot].imageSize > 0
    && p.images[slot].base <= EndOf(p.images[id].base, imageSize)
    && p.images[id].base <= EndOf(p.images[slot].base, s.desc[slot].imageSize)
  }

  /** The first slot that is not harmless is a bad one. */
  ghost predicate BadSlotDecides(p: Platform, s: State, id: nat, imageSize: nat, k: nat)
    requires Typed(p, s) && id in p.images && imageSize > 0 && k < |s.loaded|
  {
    && BadSlot(p, s, id, s.loaded[k])
    && forall j :: 0 <= j < k ==> !MeetingSlot(p, s, id, imageSize, s.loaded[j]) && !BadSlot(p, s, id, s.loaded[j])
  }

  /** A first copy whose arguments are all accepted, so that the overlap check runs. */
  predicate ChecksOverlaps(p: Platform, s: State, c: Call)
    requires Typed(p, s)
  {
    && c.ImageCopy? && s.world == NonSecure && c.id in p.images && p.images[c.id].secure && s.desc[c.id].state == Reset
    && !BadSource(c.src, c.blockSize) && 0 < c.imageSize <= p.images[c.id].maxSize
  }

  /** The image is in the state that the caller needs, and the bytes to authenticate can be read and are good. */
  predicate Accepts(p: Platform, s: State, id: Uint32, src: Uintptr, imageSize: Uint32)
    requires Typed(p, s)
  {
    && id in p.images
    && (if s.world == NonSecure && p.images[id].secure then
          s.desc[id].state == Copied && p.verify(id, Read(s.mem, p.images[id].base, s.desc[id].imageSize))
        else
          && s.desc[id].state == Reset && src > 0 && 0 < imageSize && src + imageSize <= UINTPTR_MAX + 1
          && p.mapped(src, imageSize, if p.images[id].secure then Secure else NonSecure)
          && (id in s.loaded || INVALID_IMAGE_ID in s.loaded)
          && p.verify(id, Read(s.mem, src, imageSize)))
  }

  /** Everything that ends a run, as a test on the state and the call. */
  ghost predicate Halts(p: Platform, s: State, c: Call)
    requires Typed(p, s)
  {
    match c
    case ImageCopy(id, src, blockSize, imageSize, _) =>
      ChecksOverlaps(p, s, c) && exists k :: 0 <= k < |s.loaded| && BadSlotDecides(p, s, id, imageSize, k)
    case ImageAuth(id, src, imageSize, postLoadOk) =>
      !postLoadOk && Accepts(p, s, id, src, imageSize)
    case ImageResume(_) =>
      s.world == NonSecure && s.secExec in p.images && s.desc[s.secExec].state != Interrupted
    case ImageReset(id) => s.world == NonSecure && id == p.boot
    case UpdateDone => true
    case _ => false
  }

  /** The state in which the overlap check runs: the size of the new image is recorded. */
  function Sized(p: Platform, s: State, id: nat, imageSize: nat): State
    requires Typed(p, s) && id in p.images
  {
    WithDesc(s, id, s.desc[id].(imageSize := imageSize))
  }

  lemma SlotVerdictMeans(p: Platform, s: State, id: nat, imageSize: nat, slot: nat)
    requires Typed(p, s) && INVALID_IMAGE_ID !in p.images && id in p.images && imageSize > 0
    requires slot == INVALID_IMAGE_ID || slot in p.images
    ensures SlotVerdict(p, Sized(p, s, id, imageSize), id, slot) == Fault <==> BadSlot(p, s, id, slot)
    ensures SlotVerdict(p, Sized(p, s, id, imageSize), id, slot) == Clear <==>
              !BadSlot(p, s, id, slot) && !MeetingSlot(p, s, id, imageSize, slot)
  {
  }

  ghost predicate TableTyped(p: Platform, s: State) {
    && Typed(p, s) && INVALID_IMAGE_ID !in p.images
    && forall id :: id in s.loaded ==> id == INVALID_IMAGE_ID || id in p.images
  }

  lemma AllVerdictsMean(p: Platform, s: State, id: nat, imageSize: nat)
    requires TableTyped(p, s) && id in p.images && imageSize > 0
    ensures forall k {:trigger s.loaded[k]} :: 0 <= k < |s.loaded| ==>
              var v := SlotVerdict(p, Sized(p, s, id, imageSize), id, s.loaded[k]);
              && (v == Fault <==> BadSlot(p, s, id, s.loaded[k]))
              && (v == Clear <==> !BadSlot(p, s, id, s.loaded[k]) && !MeetingSlot(p, s, id, imageSize, s.loaded[k]))
  {
    forall k {:trigger s.loaded[k]} | 0 <= k < |s.loaded|
      ensures var v := SlotVerdict(p, Sized(p, s, id, imageSize), id, s.loaded[k]);
              && (v == Fault <==> BadSlot(p, s, id, s.loaded[k]))
              && (v == Clear <==> !BadSlot(p, s, id, s.loaded[k]) && !MeetingSlot(p, s, id, imageSize, s.loaded[k]))
    {
      assert s.loaded[k] in s.loaded;
      SlotVerdictMeans(p, s, id, imageSize, s.loaded[k]);
    }
  }

  lemma FaultIsDecided(p: Platform, s: State, id: nat, imageSize: nat)
    requires TableTyped(p, s) && id in p.images && imageSize > 0
    requires CheckOverlaps(p, Sized(p, s, id, imageSize), id, 0) == Fault
    ensures exists k :: 0 <= k < |s.loaded| && BadSlotDecides(p, s, id, imageSize, k)
  {
    var s1 := Sized(p, s, id, imageSize);
    var k: nat :| Decides(p, s1, id, 0, k) && SlotVerdict(p, s1, id, s1.loaded[k]) == Fault;
    forall j | 0 <= j < k
      ensures !MeetingSlot(p, s, id, imageSize, s.loaded[j]) && !BadSlot(p, s, id, s.loaded[j])
    {
      assert s.loaded[j] in s.loaded;
      SlotVerdictMeans(p, s, id, imageSize, s.loaded[j]);
    }
    assert s.loaded[k] in s.loaded;
    SlotVerdictMeans(p, s, id, imageSize, s.loaded[k]);
    assert BadSlotDecides(p, s, id, imageSize, k);
  }

  lemma {:induction false} VerdictFrom(p: Platform, s: State, id: nat, from: nat, k: nat)
    requires Typed(p, s) && id in p.images && s.desc[id].imageSize > 0 && from <= k < |s.loaded|
    requires Decides(p, s, id, from, k)
    ensures CheckOverlaps(p, s, id, from) == SlotVerdict(p, s, id, s.loaded[k])
    decreases k - from
  {
    if from < k { VerdictFrom(p, s, id, from + 1, k); }
  }

  lemma DecidedIsFault(p: Platform, s: State, id: nat, imageSize: nat, k: nat)
    requires TableTyped(p, s) && id in p.images && imageSize > 0
    requires k < |s.loaded| && BadSlotDecides(p, s, id, imageSize, k)
    ensures CheckOverlaps(p, Sized(p, s, id, imageSize), id, 0) == Fault
  {
    AllVerdictsMean(p, s, id, imageSize);
    assert Decides(p, Sized(p, s, id, imageSize), id, 0, k);
    VerdictFrom(p, Sized(p, s, id, imageSize), id, 0, k);
  }

  /** Only the overlap check can end a copy call; the assertions on its progress hold. */
  lemma CopyHaltsInCheck(p: Platform, s: State, c: Call)
    requires Inv(p, s) && c.ImageCopy?
    ensures Copy(p, s, c.id, c.src, c.blockSize, c.imageSize, c.preLoadOk).Halted? <==>
            ChecksOverlaps(p, s, c) && CheckOverlaps(p, Sized(p, s, c.id, c.imageSize), c.id, 0) == Fault
  {
    if c.id in p.images { assert DescOk(p, s, c.id); }
  }

  lemma CopyHaltsExactly(p: Platform, s: State, c: Call)
    requires Inv(p, s) && c.ImageCopy?
    ensures Copy(p, s, c.id, c.src, c.blockSize, c.imageSize, c.preLoadOk).Halted? <==> Halts(p, s, c)
  {
    CopyHaltsInCheck(p, s, c);
    if ChecksOverlaps(p, s, c) {
      if CheckOverlaps(p, Sized(p, s, c.id, c.imageSize), c.id, 0) == Fault {
        FaultIsDecided(p, s, c.id, c.imageSize);
      } else if k :| 0 <= k < |s.loaded| && BadSlotDecides(p, s, c.id, c.imageSize, k) {
        DecidedIsFault(p, s, c.id, c.imageSize, k);
      }
    }
  }

  lemma AuthHaltsExactly(p: Platform, s: State, c: Call)
    requires Typed(p, s) && c.ImageAuth?
    ensures Auth(p, s, c.id, c.src, c.imageSize, c.postLoadOk).Halted? <==> Halts(p, s, c)
  {
  }

  lemma ResumeHaltsExactly(p: Platform, s: State, param: Uintptr)
    requires Inv(p, s)
    ensures Resume(p, s, param).Halted? <==> Halts(p, s, ImageResume(param))
  {
  }

  lemma ResetHaltsExactly(p: Platform, s: State, id: Uint32)
    requires Inv(p, s)
    ensures ResetImage(p, s, id).Halted? <==> Halts(p, s, ImageReset(id))
  {
    if id in p.images { assert DescOk(p, s, id); }
  }

  lemma DoneNeverHalts(p: Platform, s: State)
    requires Inv(p, s)
    ensures ImageDone(p, s).Done?
  {
    if s.world == Secure { assert s.secExec in s.loaded; }
  }

  /**
   In every reachable state a call halts exactly when `Halts` says so. In particular the
   assertions on the copy progress (274-281), on secure callers (570-577, 633-640) and on
   zeroing (719) never fail.
   */
  lemma HaltsExactly(p: Platform, r: Run, c: Call)
    requires PlatformOk(p) && After(p, r).Some?
    ensures var s := After(p, r).value; Smc(p, s, c).Halted? <==> Halts(p, s, c)
  {
    RunKeepsInvariant(p, r);
    var s := After(p, r).value;
    match c
    case ImageCopy(_, _, _, _, _) => CopyHaltsExactly(p, s, c);
    case ImageAuth(_, _, _, _) => AuthHaltsExactly(p, s, c);
    case ImageExecute(_) =>
    case ImageResume(param) => ResumeHaltsExactly(p, s, param);
    case SecImageDone => DoneNeverHalts(p, s);
    case ImageReset(id) => ResetHaltsExactly(p, s, id);
    case UpdateDone =>
  }

  // ---- the table of loaded ids

  /** A first copy gets as far as the pre-load hook, line 344, and the hook fails. */
  predicate HookFails(p: Platform, s: State, e: Event)
    requires Typed(p, s)
  {
    && e.Call? && ChecksOverlaps(p, s, e.call) && !e.call.preLoadOk
    && CheckOverlaps(p, Sized(p, s, e.call.id, e.call.imageSize), e.call.id, 0) == Clear
    && p.mapped(e.call.src, Min(e.call.blockSize, e.call.imageSize), NonSecure)
    && CanAdd(s.loaded, e.call.id)
  }

  /** No step of the run meets a failing hook. */
  ghost predicate HooksOk(p: Platform, r: Run)
    requires PlatformOk(p)
  {
    match r
    case Start(_) => true
    case Then(before, e) => HooksOk(p, before) && (After(p, before).Some? ==> !HookFails(p, After(p, before).value, e))
  }

  ghost predicate ListedMeansUnderway(p: Platform, s: State)
    requires Typed(p, s)
  {
    forall id :: id in s.loaded && id in p.images ==> s.desc[id].state != Reset
  }

  lemma ListedAfterChange(p: Platform, s: State, s1: State, id: nat)
    requires Typed(p, s) && ListedMeansUnderway(p, s) && Typed(p, s1) && ChangesOnly(p, s, s1, id) && id in p.images
    requires id in s1.loaded ==> s1.desc[id].state != Reset
    requires INVALID_IMAGE_ID !in p.images
    ensures ListedMeansUnderway(p, s1)
  {
  }

  /** A copy call touches the table only to list its image, which then is under way unless the hook failed. */
  lemma CopyLists(p: Platform, s: State, c: Call)
    requires Typed(p, s) && c.ImageCopy?
    ensures var r := Copy(p, s, c.id, c.src, c.blockSize, c.imageSize, c.preLoadOk);
            r.Done? ==>
              && (forall x :: x in p.images && x != c.id ==> r.state.desc[x] == s.desc[x])
              && (r.state.loaded == s.loaded
                  || (c.id in p.images && CanAdd(s.loaded, c.id) && r.state.loaded == Added(s.loaded, c.id)))
              && (c.id in p.images ==>
                    r.state.desc[c.id].state == s.desc[c.id].state || r.state.desc[c.id].state != Reset)
              && (!HookFails(p, s, Event.Call(c)) && r.state.loaded != s.loaded ==> r.state.desc[c.id].state != Reset)
  {
  }

  /** What a failing hook leaves behind. */
  lemma FailedHookLists(p: Platform, s: State, c: Call)
    requires Inv(p, s) && HookFails(p, s, Event.Call(c))
    ensures var r := Smc(p, s, c);
            && r.Done? && r.code == EPERM && c.id in r.state.loaded && r.state.loaded == Added(s.loaded, c.id)
            && r.state == WithDesc(s, c.id, Desc(Reset, c.imageSize, 0)).(loaded := Added(s.loaded, c.id))
  {
    AddedKeeps(s.loaded, c.id);
  }

  lemma CopyKeepsListed(p: Platform, s: State, c: Call)
    requires Typed(p, s) && NoDuplicates(s.loaded) && INVALID_IMAGE_ID !in p.images && ListedMeansUnderway(p, s)
    requires c.ImageCopy? && !HookFails(p, s, Event.Call(c))
    ensures var r := Copy(p, s, c.id, c.src, c.blockSize, c.imageSize, c.preLoadOk);
            r.Done? ==> ListedMeansUnderway(p, r.state)
  {
    CopyLists(p, s, c);
    var r := Copy(p, s, c.id, c.src, c.blockSize, c.imageSize, c.preLoadOk);
    if r.Done? && r.state.loaded != s.loaded {
      AddedKeeps(s.loaded, c.id);
    }
  }

  /** The table while the verdict is asked for. */
  function Listing(s: State, id: nat): seq<nat>
    requires id in s.desc
  {
    if CanAdd(s.loaded, id) && s.desc[id].state == Reset then Added(s.loaded, id) else s.loaded
  }

  /** An authentication that changes anything lists its image if it succeeds, and else takes it off the table. */
  lemma AuthLists(p: Platform, s: State, id: Uint32, src: Uintptr, imageSize: Uint32, postLoadOk: bool)
    requires Typed(p, s)
    ensures var r := Auth(p, s, id, src, imageSize, postLoadOk);
            r.Done? && r.state != s ==>
              && id in p.images && (forall x :: x in p.images && x != id ==> r.state.desc[x] == s.desc[x])
              && r.state.loaded == (if r.code == Success then Listing(s, id) else Removed(Listing(s, id), id))
              && (r.code == Success ==> r.state.desc[id].state == Authenticated)
  {
  }

  lemma AuthKeepsListed(p: Platform, s: State, id: Uint32, src: Uintptr, imageSize: Uint32, postLoadOk: bool)
    requires Typed(p, s) && NoDuplicates(s.loaded) && INVALID_IMAGE_ID !in p.images && ListedMeansUnderway(p, s)
    ensures var r := Auth(p, s, id, src, imageSize, postLoadOk); r.Done? ==> ListedMeansUnderway(p, r.state)
  {
    var r := Auth(p, s, id, src, imageSize, postLoadOk);
    if r.Done? && r.state != s {
      AuthLists(p, s, id, src, imageSize, postLoadOk);
      RemovedKeeps(s.loaded, id);
      if CanAdd(s.loaded, id) { AddedKeeps(s.loaded, id); RemovedKeeps(Added(s.loaded, id), id); }
      ListedAfterChange(p, s, r.state, id);
    }
  }

  lemma ReleaseKeepsListed(p: Platform, s: State, s1: State, id: nat)
    requires Typed(p, s) && NoDuplicates(s.loaded) && INVALID_IMAGE_ID !in p.images && ListedMeansUnderway(p, s)
    requires Typed(p, s1) && id in p.images && s1.loaded == Removed(s.loaded, id)
    requires forall x :: x in p.images && x != id ==> s1.desc[x] == s.desc[x]
    ensures ListedMeansUnderway(p, s1)
  {
    RemovedKeeps(s.loaded, id);
  }

  lemma StepKeepsListed(p: Platform, s: State, e: Event)
    requires Typed(p, s) && NoDuplicates(s.loaded) && INVALID_IMAGE_ID !in p.images && ListedMeansUnderway(p, s)
    requires !HookFails(p, s, e) && Step(p, s, e).Done?
    ensures ListedMeansUnderway(p, Step(p, s, e).state)
  {
    var s1 := Step(p, s, e).state;
    match e
    case Store(_, _) =>
    case Call(c) =>
      match c {
        case ImageCopy(_, _, _, _, _) => CopyKeepsListed(p, s, c);
        case ImageAuth(id, src, imageSize, postLoadOk) => AuthKeepsListed(p, s, id, src, imageSize, postLoadOk);
        case ImageReset(id) => if s1 != s { ReleaseKeepsListed(p, s, s1, id); }
        case SecImageDone => if s1 != s { ReleaseKeepsListed(p, s, s1, s.secExec); }
        case _ =>
      }
  }

  /** A step keeps the table right exactly when it meets no failing hook. */
  lemma StepKeepsListedExactly(p: Platform, s: State, e: Event)
    requires Inv(p, s) && ListedMeansUnderway(p, s) && Step(p, s, e).Done?
    ensures ListedMeansUnderway(p, Step(p, s, e).state) <==> !HookFails(p, s, e)
  {
    if HookFails(p, s, e) { FailedHookLists(p, s, e.call); } else { StepKeepsListed(p, s, e); }
  }

  /** The table lists, without duplicates, exactly the images other than the boot image that are not reset. */
  ghost predicate TableExact(p: Platform, s: State)
    requires Typed(p, s)
  {
    && NoDuplicates(s.loaded)
    && forall id :: id in p.images && id != p.boot ==> (id in s.loaded <==> s.desc[id].state != Reset)
  }

  ghost predicate AlwaysExact(p: Platform, r: Run)
    requires PlatformOk(p) && After(p, r).Some?
  {
    TableExact(p, After(p, r).value) && (r.Then? ==> AlwaysExact(p, r.before))
  }

  lemma ExactIsListed(p: Platform, s: State)
    requires Inv(p, s)
    ensures TableExact(p, s) <==> ListedMeansUnderway(p, s)
  {
    assert p.boot !in s.loaded;
  }

  /** The table has been exact at every point of a run if and only if no pre-load hook has failed in it. */
  lemma {:induction false} ListedExactlyWhenUnderway(p: Platform, r: Run)
    requires PlatformOk(p) && After(p, r).Some?
    ensures AlwaysExact(p, r) <==> HooksOk(p, r)
  {
    RunKeepsInvariant(p, r);
    ExactIsListed(p, After(p, r).value);
    match r
    case Start(mem) =>
    case Then(before, e) =>
      ListedExactlyWhenUnderway(p, before);
      RunKeepsInvariant(p, before);
      ExactIsListed(p, After(p, before).value);
      if AlwaysExact(p, before) { StepKeepsListedExactly(p, After(p, before).value, e); }
  }

  /** Before slot `k`, a slot that is not bad and not preceded by a bad one meets the area. */
  ghost predicate MeetsBefore(p: Platform, s: State, id: nat, imageSize: nat, k: nat)
    requires Typed(p, s) && id in p.images && imageSize > 0 && k <= |s.loaded|
  {
    exists j :: 0 <= j < k && MeetingSlot(p, s, id, imageSize, s.loaded[j])
                && forall i :: 0 <= i <= j ==> !BadSlot(p, s, id, s.loaded[i])
  }

  lemma {:induction false} BadSlotStops(p: Platform, s: State, id: nat, imageSize: nat, from: nat, k: nat)
    requires Typed(p, s) && id in p.images && imageSize > 0 && from <= k < |s.loaded| && BadSlot(p, s, id, s.loaded[k])
    requires forall i :: 0 <= i < from ==>
               !BadSlot(p, s, id, s.loaded[i]) && !MeetingSlot(p, s, id, imageSize, s.loaded[i])
    ensures (exists b :: 0 <= b < |s.loaded| && BadSlotDecides(p, s, id, imageSize, b)) <==>
            !MeetsBefore(p, s, id, imageSize, k)
    decreases k - from
  {
    if BadSlot(p, s, id, s.loaded[from]) {
      assert BadSlotDecides(p, s, id, imageSize, from);
    } else if MeetingSlot(p, s, id, imageSize, s.loaded[from]) {
      assert MeetsBefore(p, s, id, imageSize, k);
    } else {
      BadSlotStops(p, s, id, imageSize, from + 1, k);
    }
  }

  /**
   A failed hook leaves its image listed although it is reset. The next first copy of any other image then
   fails an assertion exactly when no earlier slot of the table meets the area of that image.
   */
  lemma FailedHookLeavesListedReset(p: Platform, s: State, c: Call, d: Call)
    requires Inv(p, s) && HookFails(p, s, Event.Call(c))
    requires d.ImageCopy? && d.id != c.id && ChecksOverlaps(p, Smc(p, s, c).state, d)
    ensures var r := Smc(p, s, c);
            && r.Done? && r.code == EPERM && c.id in r.state.loaded && r.state.desc[c.id].state == Reset
            && (Smc(p, r.state, d).Halted? <==>
                !MeetsBefore(p, r.state, d.id, d.imageSize, SlotOf(r.state.loaded, c.id)))
  {
    FailedHookLists(p, s, c);
    StepKeeps(p, s, Event.Call(c));
    var s1 := Smc(p, s, c).state;
    CopyHaltsExactly(p, s1, d);
    assert BadSlot(p, s1, d.id, s1.loaded[SlotOf(s1.loaded, c.id)]);
    BadSlotStops(p, s1, d.id, d.imageSize, 0, SlotOf(s1.loaded, c.id));
  }

  // ---- control

  /**
   The secure world has control exactly when some secure image is executing; that image is then
   the only one and is the one in `sec_exec_image_id`.
   */
  lemma SecureWorldRunsOneImage(p: Platform, r: Run)
    requires PlatformOk(p) && After(p, r).Some?
    ensures var s := After(p, r).value;
            && (s.world == Secure <==>
                  exists id :: id in p.images && p.images[id].secure && s.desc[id].state == Executed)
            && forall id :: id in p.images && p.images[id].secure && s.desc[id].state == Executed ==> id == s.secExec
  {
    RunKeepsInvariant(p, r);
  }

  /** The event authenticates `id`: it is accepted and the verdict on the bytes it names is good. */
  ghost predicate Authenticates(p: Platform, s: State, e: Event, id: nat)
    requires Typed(p, s)
  {
    && e.Call? && e.call.ImageAuth? && e.call.id == id && id in p.images
    && Step(p, s, e).Done? && Step(p, s, e).code == Success
    && (if s.desc[id].state == Copied
        then p.verify(id, Read(s.mem, p.images[id].base, s.desc[id].imageSize))
        else p.verify(id, Read(s.mem, e.call.src, e.call.imageSize)))
  }

  /** `id` was authenticated at some step of the run and has not been reset since. */
  ghost predicate VerifiedSinceReset(p: Platform, r: Run, id: nat)
    requires PlatformOk(p)
  {
    match r
    case Start(_) => false
    case Then(before, e) =>
      && After(p, r).Some?
      && id in p.images && After(p, r).value.desc[id].state != Reset
      && (VerifiedSinceReset(p, before, id) || Authenticates(p, After(p, before).value, e, id))
  }

  predicate PastAuthentication(d: Desc) {
    d.state == Authenticated || d.state == Executed || d.state == Interrupted
  }

  lemma AuthMeansVerified(p: Platform, s: State, id: Uint32, src: Uintptr, imageSize: Uint32, postLoadOk: bool)
    requires Typed(p, s) && id in p.images
    requires var r := Auth(p, s, id, src, imageSize, postLoadOk);
             r.Done? && r.state.desc[id].state == Authenticated && s.desc[id].state != Authenticated
    ensures Authenticates(p, s, Event.Call(ImageAuth(id, src, imageSize, postLoadOk)), id)
  {
  }

  lemma CopyStaysBefore(p: Platform, s: State, c: Call, id: nat)
    requires Typed(p, s) && c.ImageCopy? && Smc(p, s, c).Done? && id in p.images && !PastAuthentication(s.desc[id])
    ensures !PastAuthentication(Smc(p, s, c).state.desc[id])
  {
  }

  lemma ControlStaysBefore(p: Platform, s: State, c: Call, id: nat)
    requires Typed(p, s) && !c.ImageCopy? && !c.ImageAuth? && Smc(p, s, c).Done? && id in p.images
    requires !PastAuthentication(s.desc[id])
    ensures !PastAuthentication(Smc(p, s, c).state.desc[id])
  {
  }

  lemma PastAuthenticationComesFrom(p: Platform, s: State, e: Event, id: nat)
    requires Typed(p, s) && Step(p, s, e).Done? && id in p.images
    requires PastAuthentication(Step(p, s, e).state.desc[id]) && !PastAuthentication(s.desc[id])
    ensures Authenticates(p, s, e, id)
  {
    match e
    case Store(_, _) =>
    case Call(c) =>
      if c.ImageCopy? {
        CopyStaysBefore(p, s, c, id);
      } else if c.ImageAuth? {
        assert c.id == id;
        AuthMeansVerified(p, s, c.id, c.src, c.imageSize, c.postLoadOk);
      } else {
        ControlStaysBefore(p, s, c, id);
      }
  }

  /** No image other than the boot image ever runs, or waits to run, unverified. */
  lemma {:induction false} OnlyVerifiedImagesRun(p: Platform, r: Run, id: nat)
    requires PlatformOk(p) && After(p, r).Some? && id in p.images && id != p.boot
    requires PastAuthentication(After(p, r).value.desc[id])
    ensures VerifiedSinceReset(p, r, id)
  {
    match r
    case Start(_) =>
    case Then(before, e) =>
      RunKeepsInvariant(p, before);
      assert DescOk(p, After(p, before).value, id);
      if PastAuthentication(After(p, before).value.desc[id]) {
        OnlyVerifiedImagesRun(p, before, id);
      } else {
        PastAuthenticationComesFrom(p, After(p, before).value, e, id);
      }
  }

  /** Whenever the secure world has control, the image that has it was verified since it was last reset. */
  lemma SecureWorldIsVerified(p: Platform, r: Run)
    requires PlatformOk(p) && After(p, r).Some? && After(p, r).value.world == Secure
    ensures VerifiedSinceReset(p, r, After(p, r).value.secExec)
  {
    RunKeepsInvariant(p, r);
    OnlyVerifiedImagesRun(p, r, After(p, r).value.secExec);
  }

  // ---- progress of copying

  /** Images being copied never share a byte, and their sizes stay within their areas. */
  lemma CopiesNeverOverlap(p: Platform, r: Run, a: nat, b: nat)
    requires PlatformOk(p) && After(p, r).Some? && a in p.images && b in p.images && a != b
    requires BeingCopied(After(p, r).value.desc[a]) && BeingCopied(After(p, r).value.desc[b])
    ensures var s := After(p, r).value; var d := s.desc[a];
            && Apart(p, s, a, b)
            && 0 < d.copiedSize <= d.imageSize <= p.images[a].maxSize
            && (d.state == Copied <==> d.copiedSize == d.imageSize)
  {
    RunKeepsInvariant(p, r);
    assert DescOk(p, After(p, r).value, a);
  }

  /** The event is a copy call on `id` that succeeded. */
  predicate CopiesBlock(p: Platform, s: State, e: Event, id: nat)
    requires Typed(p, s)
  {
    && e.Call? && e.call.ImageCopy? && e.call.id == id
    && Step(p, s, e).Done? && Step(p, s, e).code == Success
  }

  /** Successful copy calls on `id` since it was last reset. */
  ghost function BlocksCopied(p: Platform, r: Run, id: nat): nat
    requires PlatformOk(p) && After(p, r).Some?
  {
    match r
    case Start(_) => 0
    case Then(before, e) =>
      var s := After(p, before).value;
      if id !in p.images then 0
      else if CopiesBlock(p, s, e, id) then (if s.desc[id].state == Reset then 1 else BlocksCopied(p, before, id) + 1)
      else if After(p, r).value.desc[id].state == Reset then 0
      else BlocksCopied(p, before, id)
  }

  lemma CallAdvances(p: Platform, s: State, c: Call)
    requires Typed(p, s) && c.ImageCopy? && Smc(p, s, c).Done? && c.id in p.images && DescOk(p, s, c.id)
    ensures var d, d1 := s.desc[c.id], Smc(p, s, c).state.desc[c.id];
            if Smc(p, s, c).code == Success then
              && BeingCopied(d1) && (d.state == Copying ==> d.copiedSize < d1.copiedSize && d1.imageSize == d.imageSize)
              && (d.state == Reset || d.state == Copying)
            else BeingCopied(d1) ==> d1 == d
  {
  }

  lemma OthersKeepCopies(p: Platform, s: State, c: Call, id: nat)
    requires Typed(p, s) && Smc(p, s, c).Done? && id in p.images && !(c.ImageCopy? && c.id == id)
    ensures BeingCopied(Smc(p, s, c).state.desc[id]) ==> Smc(p, s, c).state.desc[id] == s.desc[id]
  {
  }

  lemma CopyAdvances(p: Platform, s: State, e: Event, id: nat)
    requires Typed(p, s) && id in p.images && Step(p, s, e).Done? && DescOk(p, s, id)
    ensures var d, d1 := s.desc[id], Step(p, s, e).state.desc[id];
            if CopiesBlock(p, s, e, id) then
              && BeingCopied(d1) && (d.state == Copying ==> d.copiedSize < d1.copiedSize && d1.imageSize == d.imageSize)
              && (d.state == Reset || d.state == Copying)
            else BeingCopied(d1) ==> d1 == d
  {
    if e.Call? {
      if e.call.ImageCopy? && e.call.id == id { CallAdvances(p, s, e.call); }
      else { OthersKeepCopies(p, s, e.call, id); }
    }
  }

  /** Each successful copy adds a byte at least, so `imageSize` of them complete the image. */
  lemma {:induction false} FewBlocksComplete(p: Platform, r: Run, id: nat)
    requires PlatformOk(p) && After(p, r).Some? && id in p.images && BeingCopied(After(p, r).value.desc[id])
    ensures var d := After(p, r).value.desc[id];
            && 0 < BlocksCopied(p, r, id) <= d.copiedSize <= d.imageSize
            && (BlocksCopied(p, r, id) == d.imageSize ==> d.state == Copied)
  {
    RunKeepsInvariant(p, r);
    assert DescOk(p, After(p, r).value, id);
    match r
    case Start(_) =>
    case Then(before, e) =>
      RunKeepsInvariant(p, before);
      assert DescOk(p, After(p, before).value, id);
      CopyAdvances(p, After(p, before).value, e, id);
      if BeingCopied(After(p, before).value.desc[id]) {
        FewBlocksComplete(p, before, id);
      }
  }
}

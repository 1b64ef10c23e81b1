/**
 Transition system of the BL1 firmware-update service (CA57-code/ipl/bl1/bl1_fwu.c).

 A state holds one descriptor per image, the table of loaded image ids, byte memory,
 the id of the last secure image that was executed and the world that has control.
 Every SMC is one step. A C assertion that fails, a platform panic and the SMC that
 never returns all end the run: such a step is `Halted`.
 */
module FwuModel {

  const INVALID_IMAGE_ID: nat := 0xFFFF_FFFF
  const MAX_SIMULTANEOUS_IMAGES: nat := 10
  const UINTPTR_MAX: nat := 0xFFFF_FFFF_FFFF_FFFF

  type Uint32 = x: nat | x < 0x1_0000_0000
  type Uintptr = x: nat | x <= UINTPTR_MAX

  datatype World = Secure | NonSecure

  datatype ImageState = Reset | Copied | Copying | Authenticated | Executed | Interrupted

  /** What the platform fixes about an image: the descriptor fields no SMC changes. */
  datatype Image = Image(secure: bool, executable: bool, base: nat, maxSize: nat)

  /** The descriptor fields that SMCs change. */
  datatype Desc = Desc(state: ImageState, imageSize: nat, copiedSize: nat)

  /**
   The platform: its images, the non-secure image BL1 started at boot, the size of memory,
   which source ranges are mapped for which world, and the verdict of the authentication
   module on an image's bytes.
   */
  datatype Platform = Platform(
    images: map<nat, Image>,
    boot: nat,
    memSize: nat,
    mapped: (nat, nat, World) -> bool,
    verify: (nat, seq<bv8>) -> bool)

  datatype State = State(
    desc: map<nat, Desc>,
    loaded: seq<nat>,
    mem: seq<bv8>,
    secExec: nat,
    world: World)

  /** `preLoadOk` and `postLoadOk` are the answers of the platform's image-load hooks. */
  datatype Call =
    | ImageCopy(id: Uint32, src: Uintptr, blockSize: Uint32, imageSize: Uint32, preLoadOk: bool)
    | ImageAuth(id: Uint32, src: Uintptr, imageSize: Uint32, postLoadOk: bool)
    | ImageExecute(id: Uint32)
    | ImageResume(param: Uintptr)
    | SecImageDone
    | ImageReset(id: Uint32)
    | UpdateDone

  datatype Code = Success | EPERM | ENOMEM | EAUTH | Param(value: int)

  datatype Result = Done(state: State, code: Code) | Halted

  /** Secure images lie in memory, so their end addresses never wrap. */
  ghost predicate PlatformOk(p: Platform) {
    && p.boot in p.images && !p.images[p.boot].secure
    && INVALID_IMAGE_ID !in p.images
    && p.memSize <= UINTPTR_MAX + 1
    && (forall id :: id in p.images ==> p.images[id].base <= UINTPTR_MAX)
    && (forall id :: id in p.images && p.images[id].secure ==>
          p.images[id].base + p.images[id].maxSize <= p.memSize)
    && (forall a: nat, n: nat, w :: p.mapped(a, n, w) ==> a + n <= p.memSize)
  }

  predicate Typed(p: Platform, s: State) {
    s.desc.Keys == p.images.Keys && |s.loaded| == MAX_SIMULTANEOUS_IMAGES && |s.mem| == p.memSize
  }

  // ---- memory

  /** The `n` bytes at `at`. Ranges outside memory read as zero; no accepted call names one. */
  function Read(mem: seq<bv8>, at: nat, n: nat): (r: seq<bv8>)
    ensures |r| == n
  {
    if at + n <= |mem| then mem[at..at + n] else Zeros(n)
  }

  /** Memory with `data` at `at`. Ranges outside memory are not written; no accepted call names one. */
  function Write(mem: seq<bv8>, at: nat, data: seq<bv8>): (r: seq<bv8>)
    ensures |r| == |mem|
  {
    if at + |data| <= |mem| then mem[..at] + data + mem[at + |data|..] else mem
  }

  function Zeros(n: nat): (r: seq<bv8>)
    ensures |r| == n && forall i :: 0 <= i < n ==> r[i] == 0
  {
    seq(n, _ => 0)
  }

  // ---- the table of loaded ids

  /** The first slot holding `id`, or the length of the table. */
  function SlotOf(loaded: seq<nat>, id: nat): (k: nat)
    ensures k <= |loaded|
    ensures k < |loaded| <==> id in loaded
    ensures k < |loaded| ==> loaded[k] == id
    ensures forall j :: 0 <= j < k ==> loaded[j] != id
  {
    if loaded == [] then 0
    else if loaded[0] == id then 0
    else 1 + SlotOf(loaded[1..], id)
  }

  predicate CanAdd(loaded: seq<nat>, id: nat) {
    id in loaded || INVALID_IMAGE_ID in loaded
  }

  function Added(loaded: seq<nat>, id: nat): seq<nat>
    requires CanAdd(loaded, id)
  {
    if id in loaded then loaded else loaded[SlotOf(loaded, INVALID_IMAGE_ID) := id]
  }

  function Removed(loaded: seq<nat>, id: nat): seq<nat> {
    if id in loaded then loaded[SlotOf(loaded, id) := INVALID_IMAGE_ID] else loaded
  }

  // ---- the overlap check

  /** What one slot of the table means for the check: nothing, an overlap, or a failed assertion. */
  datatype Verdict = Clear | Overlap | Fault

  function EndOf(base: nat, size: nat): nat
    requires size > 0
  {
    (base + size - 1) % (UINTPTR_MAX + 1)
  }

  function SlotVerdict(p: Platform, s: State, id: nat, slot: nat): Verdict
    requires Typed(p, s) && id in p.images && s.desc[id].imageSize > 0
  {
    if slot == INVALID_IMAGE_ID || slot == id then Clear
    else if slot !in s.desc || s.desc[slot].state == Reset then Fault
    else if s.desc[slot].imageSize == 0 then Clear
    else
      var lo, hi := p.images[slot].base, EndOf(p.images[slot].base, s.desc[slot].imageSize);
      if hi <= lo then Fault
      else if hi < p.images[id].base || EndOf(p.images[id].base, s.desc[id].imageSize) < lo then Clear
      else Overlap
  }

  /** Slot `k` is the first, from `from` on, that is not clear. */
  ghost predicate Decides(p: Platform, s: State, id: nat, from: nat, k: nat)
    requires Typed(p, s) && id in p.images && s.desc[id].imageSize > 0
  {
    && from <= k < |s.loaded| && SlotVerdict(p, s, id, s.loaded[k]) != Clear
    && forall j :: from <= j < k ==> SlotVerdict(p, s, id, s.loaded[j]) == Clear
  }

  /** The verdict of the first slot, from `from` on, that is not clear. */
  function CheckOverlaps(p: Platform, s: State, id: nat, from: nat): (v: Verdict)
    requires Typed(p, s) && id in p.images && s.desc[id].imageSize > 0 && from <= |s.loaded|
    ensures v == Clear <==> forall k :: from <= k < |s.loaded| ==> SlotVerdict(p, s, id, s.loaded[k]) == Clear
    ensures v != Clear ==> exists k: nat :: Decides(p, s, id, from, k) && SlotVerdict(p, s, id, s.loaded[k]) == v
    decreases |s.loaded| - from
  {
    if from == |s.loaded| then Clear
    else if SlotVerdict(p, s, id, s.loaded[from]) != Clear then
      assert Decides(p, s, id, from, from);
      SlotVerdict(p, s, id, s.loaded[from])
    else
      var v := CheckOverlaps(p, s, id, from + 1);
      assert forall k: nat :: Decides(p, s, id, from + 1, k) ==> Decides(p, s, id, from, k);
      v
  }

  // ---- the SMCs

  function WithDesc(s: State, id: nat, d: Desc): State {
    s.(desc := s.desc[id := d])
  }

  function Min(a: nat, b: nat): nat { if a < b then a else b }

  /** A block of `blockSize` bytes at `src` can be named at all: lines 262-267. */
  predicate BadSource(src: Uintptr, size: Uint32) {
    src == 0 || size == 0 || src > UINTPTR_MAX - (size - 1)
  }

  /** Lines 351-358: the block is copied and the image advances. */
  function Stored(p: Platform, s: State, id: nat, src: nat, n: nat): (s1: State)
    requires Typed(p, s) && id in p.images && s.desc[id].copiedSize + n <= s.desc[id].imageSize
    ensures Typed(p, s1)
  {
    var d := s.desc[id];
    var state := if d.copiedSize + n == d.imageSize then Copied else Copying;
    WithDesc(s, id, Desc(state, d.imageSize, d.copiedSize + n))
    .(mem := Write(s.mem, p.images[id].base + d.copiedSize, Read(s.mem, src, n)))
  }

  /** Lines 321-361: clip, check the source, take a slot, copy, advance. */
  function CopyBlock(p: Platform, s: State, id: nat, src: Uintptr, blockSize: Uint32, preLoadOk: bool): (r: Result)
    requires Typed(p, s) && id in p.images && s.desc[id].copiedSize < s.desc[id].imageSize
    ensures r.Done? ==> Typed(p, r.state)
  {
    var d := s.desc[id];
    var n := Min(blockSize, d.imageSize - d.copiedSize);
    if !p.mapped(src, n, s.world) then Done(s, ENOMEM)
    else if !CanAdd(s.loaded, id) then Done(s, ENOMEM)
    else
      var s1 := s.(loaded := Added(s.loaded, id));
      if d.state == Reset && !preLoadOk then Done(s1, EPERM)
      else Done(Stored(p, s1, id, src, n), Success)
  }

  function Copy(p: Platform, s: State, id: Uint32, src: Uintptr, blockSize: Uint32, imageSize: Uint32,
                preLoadOk: bool): (r: Result)
    requires Typed(p, s)
    ensures r.Done? ==> Typed(p, r.state)
  {
    if id !in p.images || s.world == Secure || !p.images[id].secure then Done(s, EPERM)
    else
      var d := s.desc[id];
      if d.state != Reset && d.state != Copying then Done(s, EPERM)
      else if BadSource(src, blockSize) then Done(s, ENOMEM)
      else if d.state == Copying then
        if d.copiedSize == 0 || d.imageSize == 0 || d.copiedSize >= d.imageSize then Halted
        else CopyBlock(p, s, id, src, blockSize, preLoadOk)
      else if imageSize == 0 || imageSize > p.images[id].maxSize then Done(s, ENOMEM)
      else
        match CheckOverlaps(p, WithDesc(s, id, d.(imageSize := imageSize)), id, 0)
        case Fault => Halted
        case Overlap => Done(WithDesc(s, id, d.(imageSize := 0)), EPERM)
        case Clear => CopyBlock(p, WithDesc(s, id, Desc(Reset, imageSize, 0)), id, src, blockSize, preLoadOk)
  }

  /** The authentication verdict on `size` bytes at `base` and what follows from it: lines 441-497. */
  function Verified(p: Platform, s: State, id: nat, base: nat, size: nat, postLoadOk: bool): (r: Result)
    requires Typed(p, s) && id in p.images
    ensures r.Done? ==> Typed(p, r.state)
  {
    var d := s.desc[id];
    if p.verify(id, Read(s.mem, base, size)) then
      if postLoadOk then Done(WithDesc(s, id, d.(state := Authenticated)), Success) else Halted
    else
      var s1 := s.(loaded := Removed(s.loaded, id));
      if d.state == Copied then
        Done(WithDesc(s1, id, d.(state := Reset)).(mem := Write(s.mem, base, Zeros(size))), EAUTH)
      else Done(s1, EAUTH)
  }

  /** The state an image must be in for the calling world to have it authenticated: lines 382-402. */
  function AuthState(p: Platform, s: State, id: nat): ImageState
    requires id in p.images
  {
    if s.world == NonSecure && p.images[id].secure then Copied else Reset
  }

  function Auth(p: Platform, s: State, id: Uint32, src: Uintptr, imageSize: Uint32, postLoadOk: bool): (r: Result)
    requires Typed(p, s)
    ensures r.Done? ==> Typed(p, r.state)
  {
    if id !in p.images || s.desc[id].state != AuthState(p, s, id) then Done(s, EPERM)
    else
      var d := s.desc[id];
      if d.state == Copied then Verified(p, s, id, p.images[id].base, d.imageSize, postLoadOk)
      else if BadSource(src, imageSize) then Done(s, ENOMEM)
      else if !p.mapped(src, imageSize, if p.images[id].secure then Secure else NonSecure) then Done(s, ENOMEM)
      else if !CanAdd(s.loaded, id) then Done(s, ENOMEM)
      else
        var s1 := WithDesc(s.(loaded := Added(s.loaded, id)), id, d.(imageSize := imageSize));
        Verified(p, s1, id, src, imageSize, postLoadOk)
  }

  function Execute(p: Platform, s: State, id: Uint32): (r: Result)
    requires Typed(p, s)
    ensures r.Done? ==> Typed(p, r.state)
  {
    if id !in p.images || s.world == Secure || !p.images[id].secure || !p.images[id].executable
       || s.desc[id].state != Authenticated then Done(s, EPERM)
    else Done(WithDesc(s, id, s.desc[id].(state := Executed)).(secExec := id, world := Secure), Success)
  }

  function Resume(p: Platform, s: State, param: int): (r: Result)
    requires Typed(p, s)
    ensures r.Done? ==> Typed(p, r.state)
  {
    var id := s.secExec;
    if id !in p.images then
      if s.world == NonSecure then Done(s, EPERM) else Halted
    else if !p.images[id].secure || !p.images[id].executable then Halted
    else if s.world == Secure then
      if s.desc[id].state != Executed then Halted
      else Done(WithDesc(s, id, s.desc[id].(state := Interrupted)).(world := NonSecure), Param(param))
    else
      if s.desc[id].state != Interrupted then Halted
      else Done(WithDesc(s, id, s.desc[id].(state := Executed)).(world := Secure), Param(param))
  }

  function ImageDone(p: Platform, s: State): (r: Result)
    requires Typed(p, s)
    ensures r.Done? ==> Typed(p, r.state)
  {
    var id := s.secExec;
    if s.world == NonSecure then Done(s, EPERM)
    else if id !in p.images || !p.images[id].secure || !p.images[id].executable
            || s.desc[id].state != Executed || id !in s.loaded then Halted
    else Done(WithDesc(s, id, s.desc[id].(state := Reset))
              .(loaded := Removed(s.loaded, id), secExec := INVALID_IMAGE_ID, world := NonSecure), Success)
  }

  function ResetImage(p: Platform, s: State, id: Uint32): (r: Result)
    requires Typed(p, s)
    ensures r.Done? ==> Typed(p, r.state)
  {
    if id !in p.images || s.world == Secure then Done(s, EPERM)
    else
      var d := s.desc[id];
      if d.state == Reset then Done(s, Success)
      else if d.state == Executed then Halted
      else if id !in s.loaded then Done(s, EPERM)
      else if d.copiedSize != 0 && !p.images[id].secure then Halted
      else Done(WithDesc(s, id, Desc(Reset, 0, 0))
                .(loaded := Removed(s.loaded, id),
                  mem := Write(s.mem, p.images[id].base, Zeros(d.copiedSize))), Success)
  }

  function Smc(p: Platform, s: State, c: Call): (r: Result)
    requires Typed(p, s)
    ensures r.Done? ==> Typed(p, r.state)
  {
    match c
    case ImageCopy(id, src, blockSize, imageSize, preLoadOk) => Copy(p, s, id, src, blockSize, imageSize, preLoadOk)
    case ImageAuth(id, src, imageSize, postLoadOk) => Auth(p, s, id, src, imageSize, postLoadOk)
    case ImageExecute(id) => Execute(p, s, id)
    case ImageResume(param) => Resume(p, s, param)
    case SecImageDone => ImageDone(p, s)
    case ImageReset(id) => ResetImage(p, s, id)
    case UpdateDone => Halted
  }

  // ---- runs

  /** Between SMCs the world that has control may store to the memory it can reach. */
  datatype Event = Call(call: Call) | Store(at: nat, data: seq<bv8>)

  /**
   The normal world reaches everything outside the areas of the secure images; a secure image
   reaches its own bytes.
   */
  predicate MayStore(p: Platform, s: State, at: nat, n: nat)
    requires Typed(p, s)
  {
    if s.world == NonSecure then
      forall id | id in p.images && p.images[id].secure ::
        at + n <= p.images[id].base || p.images[id].base + p.images[id].maxSize <= at
    else
      s.secExec in p.images
      && p.images[s.secExec].base <= at
      && at + n <= p.images[s.secExec].base + Min(s.desc[s.secExec].imageSize, p.images[s.secExec].maxSize)
  }

  function Step(p: Platform, s: State, e: Event): (r: Result)
    requires Typed(p, s)
    ensures r.Done? ==> Typed(p, r.state)
  {
    match e
    case Call(c) => Smc(p, s, c)
    case Store(at, data) =>
      if MayStore(p, s, at, |data|) then Done(s.(mem := Write(s.mem, at, data)), Success) else Done(s, EPERM)
  }

  /** At boot every image is reset, except the non-secure boot image, which is running. */
  function Boot(p: Platform, mem: seq<bv8>): State {
    State(map id | id in p.images :: Desc(if id == p.boot then Executed else Reset, 0, 0),
          seq(MAX_SIMULTANEOUS_IMAGES, _ => INVALID_IMAGE_ID), mem, INVALID_IMAGE_ID, NonSecure)
  }

  datatype Run = Start(mem: seq<bv8>) | Then(before: Run, event: Event)
}

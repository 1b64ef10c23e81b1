/**
 Runs on a small platform. One has an image authenticated in place, outside the range it later runs in;
 others end in a failed assertion where the documentation promises an error code.
 */
module FwuWitness {
  import opened FwuModel
  import opened FwuInvariant
  import opened FwuTheorems
  import opened FwuContent

  const FIRST: Uint32 := 1
  const SECOND: Uint32 := 2

  /** A boot image and two secure images; only the bytes `[1, 1]` pass verification. */
  function Small(): Platform {
    Platform(map[0 := Image(false, true, 0, 0), FIRST := Image(true, true, 8, 4), SECOND := Image(true, true, 12, 4)],
             0, 16, (at: nat, n: nat, w: World) => at + n <= 16, (id: nat, bytes: seq<bv8>) => bytes == [1, 1])
  }

  function Memory(): (m: seq<bv8>)
    ensures |m| == 16
  {
    [0, 0, 1, 1, 0, 0, 0, 0, 0, 0, 0, 0, 0, 0, 0, 0]
  }

  /** The first image is copied, authenticated and executed. */
  function FirstRuns(): Run {
    Then(Then(Then(Start(Memory()),
      Call(ImageCopy(FIRST, 2, 2, 2, true))),
      Call(ImageAuth(FIRST, 0, 0, true))),
      Call(ImageExecute(FIRST)))
  }

  /** It has the second authenticated where it lies, at address 2. */
  function FirstAsks(): Run {
    Then(FirstRuns(), Call(ImageAuth(SECOND, 2, 2, true)))
  }

  /** And hands control back. */
  function SecondInPlace(): Run {
    Then(FirstAsks(), Call(SecImageDone))
  }

  /** The table with these ids in its first two slots. */
  function Table(a: nat, b: nat): (t: seq<nat>)
    ensures |t| == MAX_SIMULTANEOUS_IMAGES && t[0] == a && t[1] == b
    ensures forall k :: 2 <= k < |t| ==> t[k] == INVALID_IMAGE_ID
  {
    [a, b] + seq(8, _ => INVALID_IMAGE_ID)
  }

  lemma Tables()
    ensures CanAdd(Table(INVALID_IMAGE_ID, INVALID_IMAGE_ID), FIRST)
    ensures Added(Table(INVALID_IMAGE_ID, INVALID_IMAGE_ID), FIRST) == Table(FIRST, INVALID_IMAGE_ID)
    ensures CanAdd(Table(FIRST, INVALID_IMAGE_ID), SECOND)
    ensures Added(Table(FIRST, INVALID_IMAGE_ID), SECOND) == Table(FIRST, SECOND)
    ensures Removed(Table(FIRST, SECOND), FIRST) == Table(INVALID_IMAGE_ID, SECOND)
    ensures Removed(Table(FIRST, INVALID_IMAGE_ID), FIRST) == Table(INVALID_IMAGE_ID, INVALID_IMAGE_ID)
  {
    var none, one, two := INVALID_IMAGE_ID, Table(FIRST, INVALID_IMAGE_ID), Table(FIRST, SECOND);
    assert Table(none, none)[0] == none && SlotOf(Table(none, none), none) == 0;
    assert one[1] == none && SlotOf(one, none) == 1;
    assert two[0] == FIRST && SlotOf(two, FIRST) == 0;
    assert one[0] == FIRST && SlotOf(one, FIRST) == 0;
  }

  /** The state after a run, as far as the rest of the run needs it. */
  ghost predicate Reached(r: Run, first: Desc, second: Desc, loaded: seq<nat>, secExec: nat, world: World)
    requires PlatformOk(Small())
  {
    After(Small(), r).Some?
    && var s := After(Small(), r).value;
       && s.desc[FIRST] == first && s.desc[SECOND] == second
       && s.loaded == loaded && s.secExec == secExec && s.world == world
       && Read(s.mem, 2, 2) == [1, 1] && Read(s.mem, 12, 2) == [0, 0]
       && (first.copiedSize > 0 ==> Read(s.mem, 8, 2) == [1, 1])
  }

  lemma SmallIsPlatform()
    ensures PlatformOk(Small())
  {
  }

  lemma CopiedBytes()
    ensures Read(Memory(), 2, 2) == [1, 1]
    ensures var mem := Write(Memory(), 8, [1, 1]);
            Read(mem, 2, 2) == [1, 1] && Read(mem, 8, 2) == [1, 1] && Read(mem, 12, 2) == [0, 0]
  {
    var m, mem := Memory(), Write(Memory(), 8, [1, 1]);
    assert m[2] == 1 && m[3] == 1;
    assert mem[2] == 1 && mem[3] == 1 && mem[8] == 1 && mem[9] == 1 && mem[12] == 0 && mem[13] == 0;
  }

  lemma NothingOverlaps(t: State)
    requires Typed(Small(), t) && t.desc[FIRST].imageSize > 0 && t.loaded == Table(INVALID_IMAGE_ID, INVALID_IMAGE_ID)
    ensures CheckOverlaps(Small(), t, FIRST, 0) == Clear
  {
  }

  lemma FirstCopy(s: State)
    requires PlatformOk(Small()) && Typed(Small(), s) && s.desc[FIRST] == Desc(Reset, 0, 0) && s.world == NonSecure
    requires s.loaded == Table(INVALID_IMAGE_ID, INVALID_IMAGE_ID)
    ensures var t := WithDesc(s, FIRST, Desc(Reset, 2, 0)).(loaded := Table(FIRST, INVALID_IMAGE_ID));
            Copy(Small(), s, FIRST, 2, 2, 2, true) == Done(Stored(Small(), t, FIRST, 2, 2), Success)
  {
    NothingOverlaps(WithDesc(s, FIRST, Desc(Reset, 2, 0)));
    Tables();
  }

  lemma FirstIsCopied()
    requires PlatformOk(Small())
    ensures Reached(Then(Start(Memory()), Call(ImageCopy(FIRST, 2, 2, 2, true))),
                    Desc(Copied, 2, 2), Desc(Reset, 0, 0), Table(FIRST, INVALID_IMAGE_ID), INVALID_IMAGE_ID, NonSecure)
  {
    var s := Boot(Small(), Memory());
    assert s.loaded == Table(INVALID_IMAGE_ID, INVALID_IMAGE_ID);
    FirstCopy(s);
    CopiedBytes();
  }

  lemma AuthenticatesFirst(r: Run)
    requires PlatformOk(Small())
    requires Reached(r, Desc(Copied, 2, 2), Desc(Reset, 0, 0), Table(FIRST, INVALID_IMAGE_ID), INVALID_IMAGE_ID,
                     NonSecure)
    ensures Reached(Then(r, Call(ImageAuth(FIRST, 0, 0, true))), Desc(Authenticated, 2, 2), Desc(Reset, 0, 0),
                    Table(FIRST, INVALID_IMAGE_ID), INVALID_IMAGE_ID, NonSecure)
  {
  }

  lemma ExecutesFirst(r: Run)
    requires PlatformOk(Small())
    requires Reached(r, Desc(Authenticated, 2, 2), Desc(Reset, 0, 0), Table(FIRST, INVALID_IMAGE_ID),
                     INVALID_IMAGE_ID, NonSecure)
    ensures Reached(Then(r, Call(ImageExecute(FIRST))), Desc(Executed, 2, 2), Desc(Reset, 0, 0),
                    Table(FIRST, INVALID_IMAGE_ID), FIRST, Secure)
  {
  }

  lemma AuthenticatesSecond(r: Run)
    requires PlatformOk(Small())
    requires Reached(r, Desc(Executed, 2, 2), Desc(Reset, 0, 0), Table(FIRST, INVALID_IMAGE_ID), FIRST, Secure)
    ensures Reached(Then(r, Call(ImageAuth(SECOND, 2, 2, true))), Desc(Executed, 2, 2), Desc(Authenticated, 2, 0),
                    Table(FIRST, SECOND), FIRST, Secure)
  {
    Tables();
  }

  lemma FinishesFirst(r: Run)
    requires PlatformOk(Small())
    requires Reached(r, Desc(Executed, 2, 2), Desc(Authenticated, 2, 0), Table(FIRST, SECOND), FIRST, Secure)
    ensures Reached(Then(r, Call(SecImageDone)), Desc(Reset, 2, 2), Desc(Authenticated, 2, 0),
                    Table(INVALID_IMAGE_ID, SECOND), INVALID_IMAGE_ID, NonSecure)
  {
    assert Table(FIRST, SECOND)[0] == FIRST;
    Tables();
  }

  lemma FirstIsRunning()
    requires PlatformOk(Small())
    ensures Reached(FirstRuns(), Desc(Executed, 2, 2), Desc(Reset, 0, 0), Table(FIRST, INVALID_IMAGE_ID), FIRST, Secure)
  {
    var r := Then(Start(Memory()), Call(ImageCopy(FIRST, 2, 2, 2, true)));
    FirstIsCopied();
    AuthenticatesFirst(r);
    ExecutesFirst(Then(r, Call(ImageAuth(FIRST, 0, 0, true))));
  }

  lemma FirstIsDone()
    requires PlatformOk(Small())
    ensures After(Small(), FirstAsks()).Some?
    ensures Reached(SecondInPlace(), Desc(Reset, 2, 2), Desc(Authenticated, 2, 0),
                    Table(INVALID_IMAGE_ID, SECOND), INVALID_IMAGE_ID, NonSecure)
  {
    FirstIsRunning();
    AuthenticatesSecond(FirstRuns());
    FinishesFirst(FirstAsks());
  }

  /** Nothing but an authentication by the secure world needs a free range. */
  lemma RespectsOtherwise(r: Run, e: Event)
    requires PlatformOk(Small()) && RangesRespected(Small(), r)
    requires After(Small(), r).Some? ==> After(Small(), r).value.world == NonSecure || (e.Call? && !e.call.ImageAuth?)
    ensures RangesRespected(Small(), Then(r, e))
  {
  }

  /** The range at the base of the second image is free when it is authenticated. */
  lemma SecondNamesFreeRange(r: Run)
    requires PlatformOk(Small()) && RangesRespected(Small(), r)
    requires Reached(r, Desc(Executed, 2, 2), Desc(Reset, 0, 0), Table(FIRST, INVALID_IMAGE_ID), FIRST, Secure)
    ensures RangesRespected(Small(), Then(r, Call(ImageAuth(SECOND, 2, 2, true))))
  {
    var s := After(Small(), r).value;
    forall x | Held(Small(), s, x) ensures Apart(Small(), Sized(Small(), s, SECOND, 2), SECOND, x) {
      assert x == FIRST;
    }
    assert NamesFreeRange(Small(), s, ImageAuth(SECOND, 2, 2, true));
  }

  lemma SecondRespects()
    requires PlatformOk(Small())
    ensures RangesRespected(Small(), SecondInPlace())
  {
    var copied := Then(Start(Memory()), Call(ImageCopy(FIRST, 2, 2, 2, true)));
    FirstIsCopied();
    RespectsOtherwise(Start(Memory()), Call(ImageCopy(FIRST, 2, 2, 2, true)));
    RespectsOtherwise(copied, Call(ImageAuth(FIRST, 0, 0, true)));
    RespectsOtherwise(Then(copied, Call(ImageAuth(FIRST, 0, 0, true))), Call(ImageExecute(FIRST)));
    FirstIsRunning();
    SecondNamesFreeRange(FirstRuns());
    RespectsOtherwise(FirstAsks(), Call(SecImageDone));
  }

  lemma SecondIsNotVerifiedAtBase(r: Run)
    requires PlatformOk(Small())
    requires Reached(r, Desc(Executed, 2, 2), Desc(Reset, 0, 0), Table(FIRST, INVALID_IMAGE_ID), FIRST, Secure)
    requires After(Small(), Then(r, Call(ImageAuth(SECOND, 2, 2, true)))).Some?
    ensures !VerifiedAtBase(Small(), Then(r, Call(ImageAuth(SECOND, 2, 2, true))), SECOND)
  {
    var s := After(Small(), r).value;
    Tables();
    assert Authenticates(Small(), s, Call(ImageAuth(SECOND, 2, 2, true)), SECOND);
  }

  /** Even in a free range, the bytes that are executed are then not the bytes that were verified. */
  lemma InPlaceAuthenticationIsNotEnough()
    ensures PlatformOk(Small()) && After(Small(), SecondInPlace()).Some? && RangesRespected(Small(), SecondInPlace())
    ensures !VerifiedAtBase(Small(), SecondInPlace(), SECOND)
    ensures var s := After(Small(), SecondInPlace()).value;
            && Execute(Small(), s, SECOND).code == Success
            && !Small().verify(SECOND, Range(Small(), s, SECOND))
  {
    SmallIsPlatform();
    FirstIsRunning();
    FirstIsDone();
    SecondRespects();
    SecondIsNotVerifiedAtBase(FirstRuns());
  }

  // ---- failed assertions

  /** The first image is interrupted by a resume of the normal world, and then reset. */
  function Interrupted(): Run {
    Then(FirstRuns(), Call(ImageResume(0)))
  }

  function ResetWhenInterrupted(): Run {
    Then(Interrupted(), Call(ImageReset(FIRST)))
  }

  lemma InterruptsFirst(r: Run)
    requires PlatformOk(Small())
    requires Reached(r, Desc(Executed, 2, 2), Desc(Reset, 0, 0), Table(FIRST, INVALID_IMAGE_ID), FIRST, Secure)
    ensures Reached(Then(r, Call(ImageResume(0))), Desc(ImageState.Interrupted, 2, 2), Desc(Reset, 0, 0),
                    Table(FIRST, INVALID_IMAGE_ID), FIRST, NonSecure)
  {
  }

  lemma ResetsFirst(r: Run)
    requires PlatformOk(Small())
    requires Reached(r, Desc(ImageState.Interrupted, 2, 2), Desc(Reset, 0, 0), Table(FIRST, INVALID_IMAGE_ID), FIRST,
                     NonSecure)
    ensures Reached(Then(r, Call(ImageReset(FIRST))), Desc(Reset, 0, 0), Desc(Reset, 0, 0),
                    Table(INVALID_IMAGE_ID, INVALID_IMAGE_ID), FIRST, NonSecure)
  {
    var s := After(Small(), r).value;
    assert s.loaded[0] == FIRST;
    Tables();
    WriteElsewhere(s.mem, 8, Zeros(2), 2, 2);
    WriteElsewhere(s.mem, 8, Zeros(2), 12, 2);
  }

  lemma FirstIsReset()
    requires PlatformOk(Small())
    ensures Reached(ResetWhenInterrupted(), Desc(Reset, 0, 0), Desc(Reset, 0, 0),
                    Table(INVALID_IMAGE_ID, INVALID_IMAGE_ID), FIRST, NonSecure)
  {
    FirstIsRunning();
    InterruptsFirst(FirstRuns());
    ResetsFirst(Interrupted());
  }

  /** No image is interrupted, and a resume of the normal world fails the assertion at line 583. */
  lemma ResumeWithoutInterruptedImageStops(param: Uintptr)
    ensures PlatformOk(Small()) && After(Small(), ResetWhenInterrupted()).Some?
    ensures var s := After(Small(), ResetWhenInterrupted()).value;
            && s.world == NonSecure
            && (forall id :: id in s.desc ==> s.desc[id].state != ImageState.Interrupted)
            && Smc(Small(), s, ImageResume(param)) == Halted
  {
    SmallIsPlatform();
    FirstIsReset();
    RunKeepsInvariant(Small(), ResetWhenInterrupted());
    ResumeStops(After(Small(), ResetWhenInterrupted()).value, param);
  }

  lemma ResumeStops(s: State, param: Uintptr)
    requires PlatformOk(Small()) && Inv(Small(), s) && s.world == NonSecure && s.secExec == FIRST
    requires s.desc[FIRST].state == Reset && s.desc[SECOND].state == Reset
    ensures forall id :: id in s.desc ==> s.desc[id].state != ImageState.Interrupted
    ensures Smc(Small(), s, ImageResume(param)) == Halted
  {
    assert DescOk(Small(), s, 0);
  }

  /** A first copy whose hook fails, and then the first copy of another image. */
  function Refused(): Call { ImageCopy(FIRST, 2, 2, 2, false) }

  function Other(): Call { ImageCopy(SECOND, 2, 2, 2, true) }

  /** The other image runs into the assertion at line 192. */
  lemma CopyAfterFailedHookStops()
    ensures PlatformOk(Small()) && After(Small(), Then(Start(Memory()), Call(Refused()))).Some?
    ensures Smc(Small(), After(Small(), Then(Start(Memory()), Call(Refused()))).value, Other()) == Halted
  {
    SmallIsPlatform();
    RunKeepsInvariant(Small(), Start(Memory()));
    var s := Boot(Small(), Memory());
    assert s.loaded == Table(INVALID_IMAGE_ID, INVALID_IMAGE_ID);
    HookFailsFirst(s);
  }

  lemma HookFailsFirst(s: State)
    requires Inv(Small(), s) && s.loaded == Table(INVALID_IMAGE_ID, INVALID_IMAGE_ID) && s.world == NonSecure
    requires s.desc[FIRST] == Desc(Reset, 0, 0) && s.desc[SECOND] == Desc(Reset, 0, 0)
    ensures Smc(Small(), s, Refused()).Done? && Smc(Small(), Smc(Small(), s, Refused()).state, Other()) == Halted
  {
    NothingOverlaps(WithDesc(s, FIRST, Desc(Reset, 2, 0)));
    Tables();
    assert HookFails(Small(), s, Call(Refused()));
    FailedHookLists(Small(), s, Refused());
    assert SlotOf(Table(FIRST, INVALID_IMAGE_ID), FIRST) == 0 by { assert Table(FIRST, INVALID_IMAGE_ID)[0] == FIRST; }
    FailedHookLeavesListedReset(Small(), s, Refused(), Other());
  }

  /** At boot, a reset of the image that is running fails the assertion at line 740. */
  lemma ResetOfRunningImageStops()
    ensures PlatformOk(Small()) && After(Small(), Start(Memory())).Some?
    ensures var s := After(Small(), Start(Memory())).value;
            s.desc[0].state == Executed && Smc(Small(), s, ImageReset(0)) == Halted
  {
    SmallIsPlatform();
  }
}

/**
 Why an authentication in place has to name a free range: a run in which a secure image is authenticated at
 its own base while another one owns half of that range, and overwrites it before the image is executed.
 */
module FwuOverlap {
  import opened FwuModel
  import opened FwuInvariant
  import opened FwuTheorems
  import opened FwuContent
  import opened FwuWitness

  /** The areas of the two secure images overlap; the second image passes verification as `[0, 0, 1, 1]`. */
  function Overlapping(): Platform {
    Platform(map[0 := Image(false, true, 0, 0), FIRST := Image(true, true, 10, 2), SECOND := Image(true, true, 8, 4)],
             0, 16, (at: nat, n: nat, w: World) => at + n <= 16,
             (id: nat, bytes: seq<bv8>) => bytes == [1, 1] || bytes == [0, 0, 1, 1])
  }

  function Copied(): Run { Then(Start(Memory()), Call(ImageCopy(FIRST, 2, 2, 2, true))) }

  function Verified(): Run { Then(Copied(), Call(ImageAuth(FIRST, 0, 0, true))) }

  function Running(): Run { Then(Verified(), Call(ImageExecute(FIRST))) }

  /** The first image has the second authenticated at its base, and then writes into its own bytes. */
  function InPlaceAtBase(): Run { Then(Running(), Call(ImageAuth(SECOND, 8, 4, true))) }

  function Overwritten(): Run { Then(InPlaceAtBase(), Store(10, [0])) }

  function Finished(): Run { Then(Overwritten(), Call(SecImageDone)) }

  /** The state after a run, as far as the rest of the run needs it; `area` lies at the base of the second image. */
  ghost predicate Leads(r: Run, first: Desc, second: Desc, loaded: seq<nat>, secExec: nat, world: World,
                        area: seq<bv8>)
    requires PlatformOk(Overlapping())
  {
    After(Overlapping(), r).Some?
    && var s := After(Overlapping(), r).value;
       && s.desc[FIRST] == first && s.desc[SECOND] == second
       && s.loaded == loaded && s.secExec == secExec && s.world == world && Read(s.mem, 8, 4) == area
  }

  lemma OverlappingIsPlatform()
    ensures PlatformOk(Overlapping())
  {
  }

  lemma BytesCopied()
    ensures Read(Memory(), 2, 2) == [1, 1]
    ensures var mem := Write(Memory(), 10, [1, 1]); Read(mem, 8, 4) == [0, 0, 1, 1] && Read(mem, 10, 2) == [1, 1]
  {
    var m, mem := Memory(), Write(Memory(), 10, [1, 1]);
    assert m[2] == 1 && m[3] == 1;
    assert mem[8] == 0 && mem[9] == 0 && mem[10] == 1 && mem[11] == 1;
  }

  lemma Copies(s: State)
    requires PlatformOk(Overlapping()) && Typed(Overlapping(), s) && s.desc[FIRST] == Desc(Reset, 0, 0)
    requires s.world == NonSecure && s.loaded == Table(INVALID_IMAGE_ID, INVALID_IMAGE_ID)
    ensures var t := WithDesc(s, FIRST, Desc(Reset, 2, 0)).(loaded := Table(FIRST, INVALID_IMAGE_ID));
            Copy(Overlapping(), s, FIRST, 2, 2, 2, true) == Done(Stored(Overlapping(), t, FIRST, 2, 2), Success)
  {
    var t := WithDesc(s, FIRST, Desc(Reset, 2, 0));
    assert CheckOverlaps(Overlapping(), t, FIRST, 0) == Clear;
    Tables();
  }

  lemma FirstCopied()
    requires PlatformOk(Overlapping())
    ensures Leads(Copied(), Desc(ImageState.Copied, 2, 2), Desc(Reset, 0, 0), Table(FIRST, INVALID_IMAGE_ID),
                  INVALID_IMAGE_ID, NonSecure, [0, 0, 1, 1])
  {
    var s := Boot(Overlapping(), Memory());
    assert s.loaded == Table(INVALID_IMAGE_ID, INVALID_IMAGE_ID);
    Copies(s);
    BytesCopied();
  }

  /** The bytes of the first image are the second half of the area. */
  lemma SecondHalf(mem: seq<bv8>, a: bv8, b: bv8, c: bv8, d: bv8)
    requires |mem| == 16 && Read(mem, 8, 4) == [a, b, c, d]
    ensures Read(mem, 10, 2) == [c, d]
    ensures Read(Write(mem, 10, [0]), 8, 4) == [a, b, 0, d]
  {
    var area, next := Read(mem, 8, 4), Read(Write(mem, 10, [0]), 8, 4);
    assert mem[8] == area[0] && mem[9] == area[1] && mem[10] == area[2] && mem[11] == area[3];
    assert next[0] == a && next[1] == b && next[2] == 0 && next[3] == d;
  }

  lemma FirstVerified(r: Run)
    requires PlatformOk(Overlapping())
    requires Leads(r, Desc(ImageState.Copied, 2, 2), Desc(Reset, 0, 0), Table(FIRST, INVALID_IMAGE_ID),
                   INVALID_IMAGE_ID, NonSecure, [0, 0, 1, 1])
    ensures Leads(Then(r, Call(ImageAuth(FIRST, 0, 0, true))), Desc(Authenticated, 2, 2), Desc(Reset, 0, 0),
                  Table(FIRST, INVALID_IMAGE_ID), INVALID_IMAGE_ID, NonSecure, [0, 0, 1, 1])
  {
    SecondHalf(After(Overlapping(), r).value.mem, 0, 0, 1, 1);
  }

  lemma FirstExecuted(r: Run)
    requires PlatformOk(Overlapping())
    requires Leads(r, Desc(Authenticated, 2, 2), Desc(Reset, 0, 0), Table(FIRST, INVALID_IMAGE_ID),
                   INVALID_IMAGE_ID, NonSecure, [0, 0, 1, 1])
    ensures Leads(Then(r, Call(ImageExecute(FIRST))), Desc(Executed, 2, 2), Desc(Reset, 0, 0),
                  Table(FIRST, INVALID_IMAGE_ID), FIRST, Secure, [0, 0, 1, 1])
  {
  }

  /** The second image is verified at its base, in a range that is not free. */
  lemma SecondVerified(r: Run)
    requires PlatformOk(Overlapping())
    requires Leads(r, Desc(Executed, 2, 2), Desc(Reset, 0, 0), Table(FIRST, INVALID_IMAGE_ID), FIRST, Secure,
                   [0, 0, 1, 1])
    ensures var after := Then(r, Call(ImageAuth(SECOND, 8, 4, true)));
            && Leads(after, Desc(Executed, 2, 2), Desc(Authenticated, 4, 0), Table(FIRST, SECOND), FIRST, Secure,
                     [0, 0, 1, 1])
            && VerifiedAtBase(Overlapping(), after, SECOND) && !RangesRespected(Overlapping(), after)
  {
    Tables();
    var s, c := After(Overlapping(), r).value, ImageAuth(SECOND, 8, 4, true);
    assert Authenticates(Overlapping(), s, Call(c), SECOND) && AuthenticatesInPlace(Overlapping(), s, Call(c), SECOND);
    assert Held(Overlapping(), s, FIRST) && !Apart(Overlapping(), Sized(Overlapping(), s, SECOND, 4), SECOND, FIRST);
    assert !NamesFreeRange(Overlapping(), s, c);
  }

  lemma FirstOverwrites(r: Run)
    requires PlatformOk(Overlapping())
    requires Leads(r, Desc(Executed, 2, 2), Desc(Authenticated, 4, 0), Table(FIRST, SECOND), FIRST, Secure,
                   [0, 0, 1, 1])
    requires VerifiedAtBase(Overlapping(), r, SECOND)
    ensures Leads(Then(r, Store(10, [0])), Desc(Executed, 2, 2), Desc(Authenticated, 4, 0), Table(FIRST, SECOND),
                  FIRST, Secure, [0, 0, 0, 1])
    ensures VerifiedAtBase(Overlapping(), Then(r, Store(10, [0])), SECOND)
  {
    SecondHalf(After(Overlapping(), r).value.mem, 0, 0, 1, 1);
  }

  lemma FirstFinished(r: Run)
    requires PlatformOk(Overlapping())
    requires Leads(r, Desc(Executed, 2, 2), Desc(Authenticated, 4, 0), Table(FIRST, SECOND), FIRST, Secure,
                   [0, 0, 0, 1])
    requires VerifiedAtBase(Overlapping(), r, SECOND)
    ensures Leads(Then(r, Call(SecImageDone)), Desc(Reset, 2, 2), Desc(Authenticated, 4, 0),
                  Table(INVALID_IMAGE_ID, SECOND), INVALID_IMAGE_ID, NonSecure, [0, 0, 0, 1])
    ensures VerifiedAtBase(Overlapping(), Then(r, Call(SecImageDone)), SECOND)
  {
    assert Table(FIRST, SECOND)[0] == FIRST;
    Tables();
  }

  /** Verified at its base, but in a range it does not own: the bytes that are executed do not verify. */
  lemma FreeRangeIsNeeded()
    ensures PlatformOk(Overlapping()) && After(Overlapping(), Finished()).Some?
    ensures VerifiedAtBase(Overlapping(), Finished(), SECOND)
    ensures !RangesRespected(Overlapping(), Finished()) && !AlwaysHeld(Overlapping(), Finished())
    ensures var s := After(Overlapping(), Finished()).value;
            && Execute(Overlapping(), s, SECOND).code == Success
            && !Overlapping().verify(SECOND, Range(Overlapping(), s, SECOND))
  {
    OverlappingIsPlatform();
    FirstCopied();
    FirstVerified(Copied());
    FirstExecuted(Verified());
    SecondVerified(Running());
    FirstOverwrites(InPlaceAtBase());
    FirstFinished(Overwritten());
    AlwaysHeldExactly(Overlapping(), Finished());
  }
}

/**
 What the exception-handling framework keeps over every run: the non-secure mask always comes
 back, balanced activations leave the mask alone, and the framework itself never panics on the
 way back to the normal world.
 */
module EhfTheorems {
  import opened BitWords
  import opened EhfBits
  import opened EhfModel

  /** Indices of the activated priorities; the word in `active_pri_bits` is their bit set. */
  function Indices(cfg: Config, active: seq<nat>): (r: seq<nat>)
    requires ConfigOk(cfg)
    ensures |r| == |active|
  {
    seq(|active|, i requires 0 <= i < |active| => PriToIdx(cfg, active[i]))
  }

  /** Activated priorities are declared and secure, their indices decrease, and the mask is below the top. */
  ghost predicate StackOk(cfg: Config, c: Cpu)
    requires ConfigOk(cfg)
  {
    && Decreasing(Indices(cfg, c.active))
    && (forall i :: 0 <= i < |c.active| ==> Declared(cfg, c.active[i]))
    && (c.active != [] ==> c.mask <= Top(c.active))
  }

  lemma IndexMonotone(cfg: Config, a: nat, b: nat)
    requires ConfigOk(cfg) && a < 0x80 && b < 0x80 && PriToIdx(cfg, a) < PriToIdx(cfg, b)
    ensures a < b
  {
    match cfg.priBits
    case 7 =>
    case 6 =>
    case 5 =>
    case 4 =>
    case 3 =>
    case 2 =>
    case _ =>
  }

  lemma PushIndices(cfg: Config, active: seq<nat>, pri: nat)
    requires ConfigOk(cfg)
    ensures Indices(cfg, active + [pri]) == Indices(cfg, active) + [PriToIdx(cfg, pri)]
  {
  }

  lemma PopIndices(cfg: Config, active: seq<nat>)
    requires ConfigOk(cfg) && active != []
    ensures Indices(cfg, Pop(active)) == Indices(cfg, active)[..|active| - 1]
  {
  }

  // ---- the stack of activations

  ghost predicate AllSecure(active: seq<nat>) {
    forall i :: 0 <= i < |active| ==> active[i] < HIGHEST_NS_PRIORITY
  }

  lemma ActivateKeepsStack(cfg: Config, c: Cpu, pri: nat, running: nat)
    requires ConfigOk(cfg) && StackOk(cfg, c) && Activate(cfg, c, pri, running).Some?
    ensures StackOk(cfg, Activate(cfg, c, pri, running).value)
  {
    PushIndices(cfg, c.active, pri);
    PushDecreases(Indices(cfg, c.active), PriToIdx(cfg, pri));
  }

  lemma DeactivateKeepsStack(cfg: Config, c: Cpu, pri: Priority, running: nat)
    requires ConfigOk(cfg) && StackOk(cfg, c) && AllSecure(c.active) && pri < HIGHEST_NS_PRIORITY
    requires Deactivate(cfg, c, pri, running).Some?
    ensures StackOk(cfg, Deactivate(cfg, c, pri, running).value)
  {
    PopIndices(cfg, c.active);
    if |c.active| > 1 {
      var next := c.active[|c.active| - 2];
      assert Indices(cfg, c.active)[|c.active| - 1] < Indices(cfg, c.active)[|c.active| - 2];
      IndexMonotone(cfg, pri, next);
    }
  }

  // ---- the two stashed masks

  /** The mask below the activations. */
  function BaseMask(c: Cpu): Priority {
    if c.active == [] then c.mask else c.initMask
  }

  /**
   `last` is the mask with which the normal world last ran unhindered. It is either the mask below
   the activations, or stashed while that mask is the highest non-secure priority.
   */
  ghost predicate MasksOk(s: System, last: Priority) {
    var c := s.cpu;
    && !IsSecure(last)
    && (if s.inNormal && c.active == [] then c.nsMask == 0 && c.mask == last
        else (c.nsMask == 0 && BaseMask(c) == last) || (c.nsMask == last && BaseMask(c) == HIGHEST_NS_PRIORITY))
  }

  ghost predicate Inv(cfg: Config, s: System, last: Priority) {
    ConfigOk(cfg) && StackOk(cfg, s.cpu) && AllSecure(s.cpu.active) && MasksOk(s, last)
  }

  /** The mask the normal world runs with after an event. */
  function NextLast(s: System, e: Event, last: Priority): Priority {
    if e.SetMask? && s.cpu.active == [] then NormalWorldMask(s.cpu, e.mask).mask else last
  }

  lemma StepKeeps(cfg: Config, s: System, e: Event, last: Priority)
    requires Inv(cfg, s, last) && InOrder(s, e) && Step(cfg, s, e).Some?
    ensures Inv(cfg, Step(cfg, s, e).value, NextLast(s, e, last))
  {
    match e
    case Up(pri, running) => ActivateKeepsStack(cfg, s.cpu, pri, running);
    case Down(pri, running) => DeactivateKeepsStack(cfg, s.cpu, pri, running);
    case SetMask(mask) =>
      if s.cpu.active != [] {
        assert s.cpu.mask <= Top(s.cpu.active) < HIGHEST_NS_PRIORITY;
        assert IsSecure(s.cpu.mask);
      }
    case Exit(_) =>
    case Enter(_) =>
    case Allow =>
  }

  /** The mask of the normal world when it last ran with no activation outstanding. */
  function LastNormalMask(cfg: Config, r: Run): Priority
    requires ConfigOk(cfg) && After(cfg, r).Some?
  {
    match r
    case Start(mask) => mask
    case Then(before, e) =>
      var s := After(cfg, before).value;
      if e.Exit? && s.cpu.active == [] then s.cpu.mask else LastNormalMask(cfg, before)
  }

  /** The mask of the normal world now, if it runs unhindered, and else when it last did. */
  function NormalMask(cfg: Config, r: Run): Priority
    requires ConfigOk(cfg) && After(cfg, r).Some?
  {
    var s := After(cfg, r).value;
    if s.inNormal && s.cpu.active == [] then s.cpu.mask else LastNormalMask(cfg, r)
  }

  lemma {:induction false} RunKeeps(cfg: Config, r: Run)
    requires ConfigOk(cfg) && After(cfg, r).Some?
    ensures Inv(cfg, After(cfg, r).value, NormalMask(cfg, r))
  {
    match r
    case Start(_) =>
    case Then(before, e) =>
      RunKeeps(cfg, before);
      StepKeeps(cfg, After(cfg, before).value, e, NormalMask(cfg, before));
  }

  /**
   Every entry to the normal world succeeds, and one with no activation outstanding finds the mask
   the normal world last ran with. No path through plain returns, allowed preemption or nested
   activations over several round trips loses it.
   */
  lemma EntryRestoresMask(cfg: Config, r: Run, running: nat)
    requires ConfigOk(cfg) && After(cfg, r).Some? && !After(cfg, r).value.inNormal && !IsSecure(running)
    ensures var c := After(cfg, r).value.cpu; var entered := EnteringNormalWorld(c, running);
            && entered.Some? && entered.value.active == c.active
            && (c.active == [] ==> entered.value.mask == LastNormalMask(cfg, r) && entered.value.nsMask == 0)
  {
    RunKeeps(cfg, r);
  }

  /** Leaving the normal world never panics and never finds a stale stashed mask. */
  lemma ExitNeverPanics(cfg: Config, r: Run, running: nat)
    requires ConfigOk(cfg) && After(cfg, r).Some? && After(cfg, r).value.inNormal && !IsSecure(running)
    ensures ExitedNormalWorld(After(cfg, r).value.cpu, running).Some?
  {
    RunKeeps(cfg, r);
  }

  /**
   Without activations, leaving the normal world stashes its mask and raises the mask to 0x80, so that its
   interrupts cannot preempt; with activations, leaving and entering change nothing.
   */
  lemma ExitMasks(cfg: Config, r: Run, running: nat)
    requires ConfigOk(cfg) && After(cfg, r).Some? && After(cfg, r).value.inNormal && !IsSecure(running)
    ensures var c := After(cfg, r).value.cpu;
            var left := if c.active == [] then Cpu([], c.initMask, NormalMask(cfg, r), 0x80) else c;
            ExitedNormalWorld(c, running) == Some(left)
    ensures var c := After(cfg, r).value.cpu; c.active != [] ==> EnteringNormalWorld(c, running) == Some(c)
    ensures NormalMask(cfg, r) >= 0x80
  {
    RunKeeps(cfg, r);
  }

  /** A secure running priority, as in the handling of a secure interrupt, leaves everything as it is. */
  lemma SecureRunningChangesNothing(c: Cpu, running: nat)
    requires running < 0x80
    ensures ExitedNormalWorld(c, running) == Some(c) && EnteringNormalWorld(c, running) == Some(c)
    ensures !IsNsPreemptionAllowed(c, running)
  {
  }

  /**
   The last exit or entry that found no activations was an exit, and preemption has not been allowed since.
   Exits and entries that find activations do not count, whatever happens to these later.
   */
  ghost predicate Stashed(cfg: Config, r: Run)
    requires ConfigOk(cfg) && After(cfg, r).Some?
  {
    match r
    case Start(_) => false
    case Then(before, e) =>
      var unhindered := After(cfg, before).value.cpu.active == [];
      if e.Exit? && unhindered then true
      else if (e.Enter? && unhindered) || e.Allow? then false
      else Stashed(cfg, before)
  }

  /** A mask is stashed exactly then, and it is the one the normal world last ran with. */
  lemma {:induction false} StashedExactly(cfg: Config, r: Run)
    requires ConfigOk(cfg) && After(cfg, r).Some?
    ensures var c := After(cfg, r).value.cpu;
            (c.nsMask != 0 <==> Stashed(cfg, r)) && (Stashed(cfg, r) ==> c.nsMask == LastNormalMask(cfg, r))
  {
    RunKeeps(cfg, r);
    match r
    case Start(_) =>
    case Then(before, e) =>
      RunKeeps(cfg, before);
      StashedExactly(cfg, before);
      StashStep(cfg, After(cfg, before).value, e, NormalMask(cfg, before));
  }

  lemma StashStep(cfg: Config, s: System, e: Event, last: Priority)
    requires Inv(cfg, s, last) && InOrder(s, e) && Step(cfg, s, e).Some?
    ensures var before, after := s.cpu, Step(cfg, s, e).value.cpu;
            && (e.Exit? && before.active == [] ==> after.nsMask == last != 0)
            && ((e.Enter? && before.active == []) || e.Allow? ==> after.nsMask == 0)
            && (!(e.Exit? && before.active == []) && !(e.Enter? && before.active == []) && !e.Allow? ==>
                  after.nsMask == before.nsMask)
  {
  }

  /**
   In every run, preemption by the normal world is reported as allowed exactly without activations and with
   nothing stashed; allowing it succeeds exactly without activations and with a mask stashed, and puts the mask
   of the normal world in force.
   */
  lemma PreemptionExactly(cfg: Config, r: Run, running: nat)
    requires ConfigOk(cfg) && After(cfg, r).Some? && !IsSecure(running)
    ensures var c := After(cfg, r).value.cpu;
            && (IsNsPreemptionAllowed(c, running) <==> c.active == [] && !Stashed(cfg, r))
            && (AllowNsPreemption(c).Some? <==> c.active == [] && Stashed(cfg, r))
            && (AllowNsPreemption(c).Some? ==>
                  AllowNsPreemption(c) == Some(Cpu([], c.initMask, 0, LastNormalMask(cfg, r))))
  {
    StashedExactly(cfg, r);
  }

  /**
   When exits and entries find no activations, it is the familiar rule: outside the normal world, preemption
   is allowed exactly if that has been asked for since the exit.
   */
  ghost predicate AllowedSinceExit(r: Run) {
    match r
    case Start(_) => false
    case Then(before, e) => !e.Exit? && (e.Allow? || AllowedSinceExit(before))
  }

  /** No exit and no entry of the run found activations. */
  ghost predicate Unhindered(cfg: Config, r: Run)
    requires ConfigOk(cfg) && After(cfg, r).Some?
  {
    r.Then? ==>
      Unhindered(cfg, r.before)
      && (r.event.Exit? || r.event.Enter? ==> After(cfg, r.before).value.cpu.active == [])
  }

  lemma {:induction false} UnhinderedPreemption(cfg: Config, r: Run)
    requires ConfigOk(cfg) && After(cfg, r).Some? && Unhindered(cfg, r) && !After(cfg, r).value.inNormal
    ensures Stashed(cfg, r) <==> !AllowedSinceExit(r)
  {
    match r
    case Start(_) =>
    case Then(before, e) =>
      if !e.Exit? { UnhinderedPreemption(cfg, before); }
  }

  /** Without activations, preemption is reported as allowed exactly when the stashed mask has been given back. */
  lemma PreemptionMeansMaskIsBack(cfg: Config, r: Run, running: nat)
    requires ConfigOk(cfg) && After(cfg, r).Some? && !IsSecure(running)
    requires After(cfg, r).value.cpu.active == []
    ensures var c := After(cfg, r).value.cpu;
            && (IsNsPreemptionAllowed(c, running) ==> c.mask == NormalMask(cfg, r))
            && (!IsNsPreemptionAllowed(c, running) ==> c.mask == HIGHEST_NS_PRIORITY && c.nsMask == NormalMask(cfg, r))
  {
    RunKeeps(cfg, r);
  }

  // ---- balanced activations

  datatype Change = Push(pri: nat, running: nat) | Drop(dropPri: Priority, dropRunning: nat)

  /** A sequence of activations and deactivations. */
  function Changes(cfg: Config, c: Cpu, cs: seq<Change>): Option<Cpu>
    requires ConfigOk(cfg)
  {
    if cs == [] then Some(c)
    else
      var last := cs[|cs| - 1];
      match Changes(cfg, c, cs[..|cs| - 1])
      case None => None
      case Some(c1) =>
        match last
        case Push(pri, running) => Activate(cfg, c1, pri, running)
        case Drop(pri, running) => Deactivate(cfg, c1, pri, running)
  }

  /** Whatever is activated and deactivated, the mask below the activations stays. */
  lemma {:induction false} ChangesKeepBaseMask(cfg: Config, c: Cpu, cs: seq<Change>)
    requires ConfigOk(cfg) && Changes(cfg, c, cs).Some?
    ensures BaseMask(Changes(cfg, c, cs).value) == BaseMask(c)
    ensures Changes(cfg, c, cs).value.nsMask == c.nsMask
  {
    if cs != [] { ChangesKeepBaseMask(cfg, c, cs[..|cs| - 1]); }
  }

  /**
   From a processor without activations, any sequence of activations and deactivations that ends
   without activations ends with the mask it began with; in between, that mask is stashed.
   */
  lemma BalancedChangesKeepMask(cfg: Config, c: Cpu, cs: seq<Change>)
    requires ConfigOk(cfg) && c.active == [] && Changes(cfg, c, cs).Some?
    ensures var d := Changes(cfg, c, cs).value;
            d.nsMask == c.nsMask && (if d.active == [] then d.mask else d.initMask) == c.mask
  {
    ChangesKeepBaseMask(cfg, c, cs);
  }

  // ---- panics on deactivation

  lemma LowSevenBits(a: nat)
    ensures And(a, 0x7F) == a % 0x80
  {
    LowSeven(a / 128, a % 128);
  }

  /** The index of a priority is a shift of its low seven bits. */
  lemma IndexIsShift(cfg: Config, pri: nat)
    requires ConfigOk(cfg)
    ensures PriToIdx(cfg, pri) == Shr(And(pri, 0x7F), 7 - cfg.priBits)
  {
    LowSevenBits(pri);
    ShiftsUnfold(pri % 128, 0);
    assert Shr(pri % 128, 0) == pri % 128;
  }

  /** And the priority of an index is the shift back. */
  lemma PriorityIsShift(cfg: Config, idx: nat)
    requires ConfigOk(cfg)
    ensures IdxToPri(cfg, idx) == And(Shl(idx, 7 - cfg.priBits), 0x7F)
  {
    LowSevenBits(Shl(idx, 7 - cfg.priBits));
    ShiftsUnfold(0, idx);
    assert Shl(idx, 0) == idx;
  }

  lemma {:induction false} ShrNext(a: nat, k: nat)
    ensures Shr(a, k + 1) == Shr(a, k) / 2
    decreases k
  {
    if k > 0 { ShrNext(a / 2, k - 1); }
  }

  lemma ShiftsUnfold(a: nat, b: nat)
    ensures Shr(a, 1) == a / 2 && Shr(a, 2) == a / 4 && Shr(a, 3) == a / 8
    ensures Shr(a, 4) == a / 16 && Shr(a, 5) == a / 32 && Shr(a, 6) == a / 64
    ensures Shl(b, 1) == 2 * b && Shl(b, 2) == 4 * b && Shl(b, 3) == 8 * b
    ensures Shl(b, 4) == 16 * b && Shl(b, 5) == 32 * b && Shl(b, 6) == 64 * b
  {
    ShrNext(a, 0);
    ShrNext(a, 1);
    ShrNext(a, 2);
    ShrNext(a, 3);
    ShrNext(a, 4);
    ShrNext(a, 5);
    assert Shl(b, 3) == 2 * Shl(b, 2) && Shl(b, 4) == 2 * Shl(b, 3);
    assert Shl(b, 5) == 2 * Shl(b, 4) && Shl(b, 6) == 2 * Shl(b, 5);
  }

  lemma IndexFollows(cfg: Config, a: nat, b: nat)
    requires ConfigOk(cfg) && a <= b < 0x80
    ensures PriToIdx(cfg, a) <= PriToIdx(cfg, b)
  {
    if PriToIdx(cfg, a) > PriToIdx(cfg, b) { IndexMonotone(cfg, b, a); }
  }

  /**
   In every run, a declared secure priority above the running one can be activated exactly when it is below
   the mask and does not share its index with the most recent activation; it becomes the mask, and the first
   activation stashes the mask before.
   */
  lemma ActivationExactly(cfg: Config, r: Run, pri: Priority, running: nat)
    requires ConfigOk(cfg) && After(cfg, r).Some? && pri < 0x80 && pri < running && Declared(cfg, pri)
    ensures var c := After(cfg, r).value.cpu;
            && (Activate(cfg, c, pri, running).Some? <==>
                  pri < c.mask && (c.active != [] ==> PriToIdx(cfg, pri) != PriToIdx(cfg, c.active[|c.active| - 1])))
            && (Activate(cfg, c, pri, running).Some? ==>
                  Activate(cfg, c, pri, running)
                  == Some(Cpu(c.active + [pri], if c.active == [] then c.mask else c.initMask, c.nsMask, pri)))
  {
    RunKeeps(cfg, r);
    var c := After(cfg, r).value.cpu;
    if c.active != [] && pri < c.mask {
      IndexFollows(cfg, pri, Top(c.active));
    }
  }

  /**
   In every run, a priority with the index of the most recent activation can be deactivated, while nothing
   of that priority or above is running, exactly when it is not above the mask. For the priority that was
   activated this holds: the check at 211-215 never fails on it.
   */
  lemma DeactivatingTopSucceeds(cfg: Config, r: Run, pri: Priority, running: nat)
    requires ConfigOk(cfg) && After(cfg, r).Some? && After(cfg, r).value.cpu.active != [] && pri < running
    requires PriToIdx(cfg, pri) == PriToIdx(cfg, Top(After(cfg, r).value.cpu.active))
    ensures var c := After(cfg, r).value.cpu;
            && (Deactivate(cfg, c, pri, running).Some? <==> c.mask <= pri)
            && (pri == Top(c.active) ==> Deactivate(cfg, c, pri, running).Some?)
            && (Deactivate(cfg, c, pri, running).Some? ==>
                  Deactivate(cfg, c, pri, running)
                  == Some(Cpu(c.active[..|c.active| - 1], c.initMask, c.nsMask,
                              if |c.active| == 1 then c.initMask else pri)))
  {
    RunKeeps(cfg, r);
  }

  /** Another priority with the same index can be above the mask: with 6 bits, 0x20 after 0x21 was activated. */
  lemma NonCanonicalDeactivationPanics()
    ensures
      var cfg := Config(6, seq(32, _ => true));
      var r := Then(Then(Start(0xF0), Exit(0xFF)), Up(0x21, 0xFF));
      && ConfigOk(cfg) && After(cfg, r).Some? && After(cfg, r).value.cpu.active == [0x21]
      && PriToIdx(cfg, 0x20) == PriToIdx(cfg, 0x21) && Declared(cfg, 0x20)
      && Deactivate(cfg, After(cfg, r).value.cpu, 0x20, 0xFF) == None
  {
    var cfg := Config(6, seq(32, _ => true));
    assert After(cfg, Then(Start(0xF0), Exit(0xFF))) == Some(System(Cpu([], 0, 0xF0, 0x80), false));
    assert Declared(cfg, 0x21) && [] + [0x21] == [0x21];
  }

  /** A deactivation only ever removes the most recent activation, whatever priority it names. */
  lemma DeactivationPopsMostRecent(cfg: Config, c: Cpu, pri: Priority, running: nat)
    requires ConfigOk(cfg) && Deactivate(cfg, c, pri, running).Some?
    ensures c.active != [] && PriToIdx(cfg, pri) == PriToIdx(cfg, Top(c.active))
    ensures Deactivate(cfg, c, pri, running).value.active == Pop(c.active)
  {
  }

  /** The priority has no bits below its index. */
  predicate Canonical(cfg: Config, pri: nat)
    requires ConfigOk(cfg)
  {
    IdxToPri(cfg, PriToIdx(cfg, pri)) == pri
  }

  lemma CanonicalUnique(cfg: Config, a: nat, b: nat)
    requires ConfigOk(cfg) && Canonical(cfg, a) && Canonical(cfg, b) && PriToIdx(cfg, a) == PriToIdx(cfg, b)
    ensures a == b
  {
  }

  /**
   Among canonical priorities, a deactivation that names a declared priority above the running one
   succeeds exactly when that priority is the most recent activation.
   */
  lemma CanonicalDeactivation(cfg: Config, r: Run, pri: Priority, running: nat)
    requires ConfigOk(cfg) && After(cfg, r).Some? && Canonical(cfg, pri) && Declared(cfg, pri) && pri < running
    requires var c := After(cfg, r).value.cpu; c.active != [] ==> Canonical(cfg, Top(c.active))
    ensures var c := After(cfg, r).value.cpu;
            Deactivate(cfg, c, pri, running).Some? <==> c.active != [] && Top(c.active) == pri
  {
    RunKeeps(cfg, r);
    var c := After(cfg, r).value.cpu;
    if c.active != [] && PriToIdx(cfg, pri) == PriToIdx(cfg, Top(c.active)) {
      CanonicalUnique(cfg, pri, Top(c.active));
    }
  }

  // ---- what line 209 costs

  /** The state after the activation of `pri`, then `cs`, then the deactivation of `pri`, if nothing panics. */
  function Around(cfg: Config, c: Cpu, pri: Priority, upRunning: nat, cs: seq<Change>, downRunning: nat): Option<Cpu>
    requires ConfigOk(cfg)
  {
    match Activate(cfg, c, pri, upRunning)
    case None => None
    case Some(up) =>
      match Changes(cfg, up, cs)
      case None => None
      case Some(top) => if top.active == up.active then Deactivate(cfg, top, pri, downRunning) else None
  }

  /**
   A deactivation is documented to restore the mask as it was before the matching activation. Whatever
   happened in between, it does so exactly when there was no other activation.
   */
  lemma RestoresMaskExactlyWhenOutermost(cfg: Config, c: Cpu, pri: Priority, upRunning: nat, cs: seq<Change>,
                                         downRunning: nat)
    requires ConfigOk(cfg) && Around(cfg, c, pri, upRunning, cs, downRunning).Some?
    ensures var back := Around(cfg, c, pri, upRunning, cs, downRunning).value;
            back.active == c.active && (back.mask == c.mask <==> c.active == [])
  {
    ChangesKeepBaseMask(cfg, Activate(cfg, c, pri, upRunning).value, cs);
  }

  /** After a nested deactivation the same priority cannot be activated again: line 140 panics. */
  lemma NestedReactivationPanics(cfg: Config, c: Cpu, pri: Priority, upRunning: nat, cs: seq<Change>,
                                 downRunning: nat, running: nat)
    requires ConfigOk(cfg) && c.active != [] && Around(cfg, c, pri, upRunning, cs, downRunning).Some?
    ensures Activate(cfg, Around(cfg, c, pri, upRunning, cs, downRunning).value, pri, running) == None
  {
  }

  /** A platform with three levels, on which 0x40, then 0x20, then 0x20 again shows the two lemmas apply. */
  lemma NestedReactivationExample()
    ensures
      var cfg := Config(2, [false, true, true, true]);
      var outer := Activate(cfg, Cpu([], 0, 0, 0xF0), 0x40, 0xFF).value;
      var inner := Activate(cfg, outer, 0x20, 0xFF).value;
      var back := Deactivate(cfg, inner, 0x20, 0xFF).value;
      && ConfigOk(cfg) && outer.mask == 0x40 && inner.active == [0x40, 0x20]
      && back.active == [0x40] && back.mask == 0x20 && Activate(cfg, back, 0x20, 0xFF) == None
  {
    var cfg := Config(2, [false, true, true, true]);
    assert PriToIdx(cfg, 0x40) == 2 && PriToIdx(cfg, 0x20) == 1;
    assert Declared(cfg, 0x40) && Declared(cfg, 0x20);
    assert [] + [0x40] == [0x40] && [0x40] + [0x20] == [0x40, 0x20];
    assert Activate(cfg, Cpu([], 0, 0, 0xF0), 0x40, 0xFF) == Some(Cpu([0x40], 0xF0, 0, 0x40));
    assert Activate(cfg, Cpu([0x40], 0xF0, 0, 0x40), 0x20, 0xFF) == Some(Cpu([0x40, 0x20], 0xF0, 0, 0x20));
  }
}

/**
 The exception-handling framework of one processor as BL31 runs it: the word of active priority
 bits, the two stashed masks and the interrupt controller's mask, changed in place. Each function
 returns false where the C code panics or fails an assertion.
 */
module Ehf {
  import opened BitWords
  import opened EhfBits
  import opened EhfModel
  import opened EhfTheorems

  const INVALID_IDX: int := -1

  class Processor {
    const config: Config
    var activePriBits: nat
    var initPriMask: Priority
    var nsPriMask: Priority
    var controllerMask: Priority
    /** The activated priorities that the bits stand for. */
    ghost var active: seq<nat>

    ghost function View(): Cpu
      reads this
    {
      Cpu(active, initPriMask, nsPriMask, controllerMask)
    }

    ghost predicate Valid()
      reads this
    {
      && ConfigOk(config)
      && Decreasing(Indices(config, active))
      && (forall i :: 0 <= i < |active| ==> Declared(config, active[i]))
      && activePriBits == Bits(Indices(config, active))
    }

    /** The answer and the state after a step of the transition system. */
    ghost predicate Follows(after: Option<Cpu>, ok: bool)
      reads this
    {
      ok == after.Some? && (ok ==> Valid() && View() == after.value)
    }

    constructor (config: Config, mask: Priority)
      requires ConfigOk(config)
      ensures Valid() && this.config == config && View() == Cpu([], 0, 0, mask)
    {
      this.config := config;
      activePriBits, initPriMask, nsPriMask, controllerMask := 0, 0, 0, mask;
      active := [];
    }

    /** `plat_ic_set_priority_mask`: programs the mask and returns the one before. */
    method SetPriorityMask(mask: Priority) returns (before: Priority)
      modifies this`controllerMask
      ensures controllerMask == mask && before == old(controllerMask)
    {
      before := controllerMask;
      controllerMask := mask;
    }

    /** `has_valid_pri_activations`. */
    method HasActivations() returns (any: bool)
      requires Valid()
      ensures any == (active != [])
    {
      if active != [] { StackAsBits(Indices(config, active)); }
      return activePriBits != 0;
    }

    /** `get_pe_highest_active_idx`: the index of the most recent activation. */
    method HighestActiveIdx() returns (idx: int)
      requires Valid()
      ensures idx == if active == [] then INVALID_IDX else PriToIdx(config, Top(active))
      ensures activePriBits < Pow2(WIDTH)
    {
      WordFits();
      var any := HasActivations();
      if !any { return INVALID_IDX; }
      StackAsBits(Indices(config, active));
      return Ctz(activePriBits);
    }

    /** The indices are below 32, so the word never overflows. */
    lemma WordFits()
      requires Valid()
      ensures activePriBits < Pow2(WIDTH)
    {
      if active != [] { assert Declared(config, active[0]); }
      BitsBelow(Indices(config, active), WIDTH);
    }

    /** Line 132: set the bit of a priority above the current one. */
    method MarkActive(pri: nat, idx: nat)
      requires Valid() && Declared(config, pri) && idx == PriToIdx(config, pri)
      requires active != [] ==> idx < PriToIdx(config, Top(active))
      modifies this`activePriBits, this`active
      ensures Valid() && active == old(active) + [pri]
    {
      PushPriority(config, active, pri);
      activePriBits := Or(activePriBits, Pow2(idx));
      active := active + [pri];
    }

    /** Line 199: clear the bit of the current priority. */
    method UnmarkHighest()
      requires Valid() && active != []
      modifies this`activePriBits, this`active
      ensures Valid() && active == Pop(old(active))
    {
      PopPriority(config, active);
      activePriBits := And(activePriBits, activePriBits - 1);
      active := Pop(active);
    }

    /** `ehf_activate_priority`. */
    method ActivatePriority(pri: nat, running: nat) returns (ok: bool)
      requires Valid()
      modifies this
      ensures Follows(old(Activate(config, View(), pri, running)), ok)
    {
      if pri >= running { return false; }
      var cur := HighestActiveIdx();
      var idx := PriToIdx(config, pri);
      if !(idx < |config.valid|) || !config.valid[idx] { return false; }
      if cur != INVALID_IDX && idx >= cur { return false; }
      ghost var before := View();
      MarkActive(pri, idx);
      assert View() == before.(active := before.active + [pri]);
      ok := RaiseMask(pri, cur == INVALID_IDX);
    }

    /** Lines 139-151: program the mask of the activated level, and stash the one before the first activation. */
    method RaiseMask(pri: nat, first: bool) returns (ok: bool)
      requires Valid()
      modifies this`controllerMask, this`initPriMask
      ensures Valid() && ok == (pri < old(controllerMask))
      ensures ok ==>
        View() == old(View()).(mask := pri, initMask := if first then old(controllerMask) else old(initPriMask))
    {
      if pri >= 0x100 { return false; }
      var before := SetPriorityMask(pri);
      if pri >= before { return false; }
      if first { initPriMask := before; }
      return true;
    }

    /** `ehf_deactivate_priority`. */
    method DeactivatePriority(pri: Priority, running: nat) returns (ok: bool)
      requires Valid()
      modifies this
      ensures Follows(old(Deactivate(config, View(), pri, running)), ok)
    {
      if pri >= running { return false; }
      var cur := HighestActiveIdx();
      var idx := PriToIdx(config, pri);
      if !(idx < |config.valid|) || !config.valid[idx] { return false; }
      if cur == INVALID_IDX || idx != cur { return false; }
      UnmarkHighest();
      cur := HighestActiveIdx();
      var before;
      if cur == INVALID_IDX {
        before := SetPriorityMask(initPriMask);
      } else {
        before := SetPriorityMask(pri);
      }
      return !(before > pri);
    }

    /** `ehf_exited_normal_world`. */
    method LeftNormalWorld(running: nat) returns (ok: bool)
      requires Valid()
      modifies this
      ensures Follows(old(ExitedNormalWorld(View(), running)), ok)
    {
      if IsSecure(running) { return true; }
      var any := HasActivations();
      if any { return true; }
      if nsPriMask != 0 { return false; }
      nsPriMask := SetPriorityMask(HIGHEST_NS_PRIORITY);
      return !IsSecure(nsPriMask);
    }

    /** `ehf_entering_normal_world`. */
    method EnterNormalWorld(running: nat) returns (ok: bool)
      requires Valid()
      modifies this
      ensures Follows(old(EnteringNormalWorld(View(), running)), ok)
    {
      if IsSecure(running) { return true; }
      var any := HasActivations();
      if any { return true; }
      if nsPriMask == 0 { return true; }
      var before := SetPriorityMask(nsPriMask);
      if before != HIGHEST_NS_PRIORITY && before != nsPriMask { return false; }
      nsPriMask := 0;
      return true;
    }

    /** `ehf_allow_ns_preemption`. */
    method PermitNsPreemption() returns (ok: bool)
      requires Valid()
      modifies this
      ensures Follows(old(AllowNsPreemption(View())), ok)
    {
      if nsPriMask == 0 { return false; }
      var any := HasActivations();
      if any { return false; }
      var _ := SetPriorityMask(nsPriMask);
      nsPriMask := 0;
      return true;
    }

    /** `ehf_is_ns_preemption_allowed`. */
    method NsPreemptionPermitted(running: nat) returns (allowed: bool)
      requires Valid()
      ensures allowed == IsNsPreemptionAllowed(View(), running)
    {
      if IsSecure(running) { return false; }
      var any := HasActivations();
      if any { return false; }
      return nsPriMask == 0;
    }
  }

  lemma PushPriority(cfg: Config, active: seq<nat>, pri: nat)
    requires ConfigOk(cfg) && Decreasing(Indices(cfg, active))
    requires active != [] ==> PriToIdx(cfg, pri) < PriToIdx(cfg, Top(active))
    ensures Decreasing(Indices(cfg, active + [pri]))
    ensures Bits(Indices(cfg, active + [pri])) == Or(Bits(Indices(cfg, active)), Pow2(PriToIdx(cfg, pri)))
  {
    PushIndices(cfg, active, pri);
    PushDecreases(Indices(cfg, active), PriToIdx(cfg, pri));
    PushSetsBit(Indices(cfg, active), PriToIdx(cfg, pri));
  }

  lemma PopPriority(cfg: Config, active: seq<nat>)
    requires ConfigOk(cfg) && Decreasing(Indices(cfg, active)) && active != []
    ensures Decreasing(Indices(cfg, Pop(active)))
    ensures var word := Bits(Indices(cfg, active)); word != 0 && And(word, word - 1) == Bits(Indices(cfg, Pop(active)))
  {
    PopIndices(cfg, active);
    StackAsBits(Indices(cfg, active));
  }
}

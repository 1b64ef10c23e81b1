/**
 The EL3 exception-handling framework (CA57-code/ipl/bl31/ehf.c) as a transition system.

 `active` is the stack of activated priorities, `mask` the interrupt controller's priority mask.
 A step yields `None` where the C code panics or fails an assertion. The running priority that
 the interrupt controller reports is an argument of the steps that ask for it.
 */
module EhfModel {

  const HIGHEST_NS_PRIORITY: nat := 0x80

  type Priority = p: nat | p < 0x100

  datatype Option<+T> = None | Some(value: T)

  /** The platform's table: which of the priority levels are declared. */
  datatype Config = Config(priBits: nat, valid: seq<bool>)

  /** `active` lists the activated priorities, the current one last. */
  datatype Cpu = Cpu(active: seq<nat>, initMask: Priority, nsMask: Priority, mask: Priority)

  predicate ConfigOk(cfg: Config) {
    1 <= cfg.priBits <= 7 && |cfg.valid| <= 32
  }

  /** `EHF_PRI_TO_IDX`: the top `priBits` of the low seven bits. */
  function PriToIdx(cfg: Config, pri: nat): nat
    requires ConfigOk(cfg)
  {
    var low := pri % 0x80;
    match cfg.priBits
    case 7 => low
    case 6 => low / 2
    case 5 => low / 4
    case 4 => low / 8
    case 3 => low / 16
    case 2 => low / 32
    case _ => low / 64
  }

  /** `IDX_TO_PRI`. */
  function IdxToPri(cfg: Config, idx: nat): nat
    requires ConfigOk(cfg)
  {
    match cfg.priBits
    case 7 => idx % 0x80
    case 6 => idx * 2 % 0x80
    case 5 => idx * 4 % 0x80
    case 4 => idx * 8 % 0x80
    case 3 => idx * 16 % 0x80
    case 2 => idx * 32 % 0x80
    case _ => idx * 64 % 0x80
  }

  predicate Declared(cfg: Config, pri: nat)
    requires ConfigOk(cfg)
  {
    PriToIdx(cfg, pri) < |cfg.valid| && cfg.valid[PriToIdx(cfg, pri)]
  }

  predicate IsSecure(pri: nat) { pri / 0x80 % 2 == 0 }

  function Top(active: seq<nat>): nat
    requires active != []
  {
    active[|active| - 1]
  }

  function Pop(active: seq<nat>): seq<nat>
    requires active != []
  {
    active[..|active| - 1]
  }

  function Activate(cfg: Config, c: Cpu, pri: nat, running: nat): Option<Cpu>
    requires ConfigOk(cfg)
  {
    if pri >= running || !Declared(cfg, pri) then None
    else if c.active != [] && PriToIdx(cfg, pri) >= PriToIdx(cfg, Top(c.active)) then None
    else if pri >= c.mask then None
    else Some(Cpu(c.active + [pri], if c.active == [] then c.mask else c.initMask, c.nsMask, pri))
  }

  /** Line 209 programs the priority just deactivated, not the one that stays active. */
  function Deactivate(cfg: Config, c: Cpu, pri: Priority, running: nat): Option<Cpu>
    requires ConfigOk(cfg)
  {
    if pri >= running || !Declared(cfg, pri) then None
    else if c.active == [] || PriToIdx(cfg, pri) != PriToIdx(cfg, Top(c.active)) then None
    else if c.mask > pri then None
    else Some(c.(active := Pop(c.active), mask := if |c.active| == 1 then c.initMask else pri))
  }

  function ExitedNormalWorld(c: Cpu, running: nat): Option<Cpu> {
    if IsSecure(running) || c.active != [] then Some(c)
    else if c.nsMask != 0 || IsSecure(c.mask) then None
    else Some(c.(nsMask := c.mask, mask := HIGHEST_NS_PRIORITY))
  }

  function EnteringNormalWorld(c: Cpu, running: nat): Option<Cpu> {
    if IsSecure(running) || c.active != [] || c.nsMask == 0 then Some(c)
    else if c.mask != HIGHEST_NS_PRIORITY && c.mask != c.nsMask then None
    else Some(c.(mask := c.nsMask, nsMask := 0))
  }

  function AllowNsPreemption(c: Cpu): Option<Cpu> {
    if c.nsMask == 0 || c.active != [] then None
    else Some(c.(mask := c.nsMask, nsMask := 0))
  }

  function IsNsPreemptionAllowed(c: Cpu, running: nat): bool {
    !IsSecure(running) && c.active == [] && c.nsMask == 0
  }

  // ---- runs

  /** `Exit` and `Enter` publish that the normal world was left, or is about to be entered. */
  datatype Event =
    | SetMask(mask: Priority)
    | Exit(exitRunning: nat)
    | Enter(enterRunning: nat)
    | Up(upPri: nat, upRunning: nat)
    | Down(downPri: Priority, downRunning: nat)
    | Allow

  datatype System = System(cpu: Cpu, inNormal: bool)

  /**
   The interrupt controller ignores the normal world's writes to the mask while it is in the secure
   range, and keeps them in the non-secure range.
   */
  function NormalWorldMask(c: Cpu, mask: Priority): Cpu {
    if IsSecure(c.mask) || IsSecure(mask) then c else c.(mask := mask)
  }

  function Step(cfg: Config, s: System, e: Event): Option<System>
    requires ConfigOk(cfg)
  {
    var after := match e
      case SetMask(mask) => Some(NormalWorldMask(s.cpu, mask))
      case Exit(running) => ExitedNormalWorld(s.cpu, running)
      case Enter(running) => EnteringNormalWorld(s.cpu, running)
      case Up(pri, running) => Activate(cfg, s.cpu, pri, running)
      case Down(pri, running) => Deactivate(cfg, s.cpu, pri, running)
      case Allow => AllowNsPreemption(s.cpu);
    match after
    case None => None
    case Some(c) => Some(System(c, if e.Exit? then false else if e.Enter? then true else s.inNormal))
  }

  /**
   Exits and entries alternate with a non-secure running priority, the normal world writes the mask
   only while it runs, and everything else happens in between, on secure priorities.
   */
  predicate InOrder(s: System, e: Event) {
    match e
    case SetMask(_) => s.inNormal
    case Exit(running) => s.inNormal && !IsSecure(running)
    case Enter(running) => !s.inNormal && !IsSecure(running)
    case Up(pri, _) => !s.inNormal && pri < HIGHEST_NS_PRIORITY
    case Down(pri, _) => !s.inNormal && pri < HIGHEST_NS_PRIORITY
    case Allow => !s.inNormal
  }

  datatype Run = Start(mask: Priority) | Then(before: Run, event: Event)

  /** The state after a run: `None` if it is out of order, panics, or starts with a secure mask. */
  function After(cfg: Config, r: Run): Option<System>
    requires ConfigOk(cfg)
  {
    match r
    case Start(mask) => if IsSecure(mask) then None else Some(System(Cpu([], 0, 0, mask), true))
    case Then(before, e) =>
      match After(cfg, before)
      case None => None
      case Some(s) => if InOrder(s, e) then Step(cfg, s, e) else None
  }
}

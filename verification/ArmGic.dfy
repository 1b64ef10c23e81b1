/**
 Set-up of the interrupt controller's distributor on the Cortex-R7 (CortexR7_Loader/common/arm_gic.c
 and gic_v2.c) in the build for a non-secure master. The registers follow the ARM Generic Interrupt
 Controller Architecture Specification, version 2.0 (IHI 0048B): one bit per interrupt in GICD_IGROUPR
 (section 4.3.4) and GICD_ISENABLER (section 4.3.5), one byte in GICD_IPRIORITYR (section 4.3.11) and
 GICD_ITARGETSR (section 4.3.12).
 */
module ArmGic {
  import opened BitWords
  import opened WordFields

  const MIN_SPI_ID: nat := 32
  const HIGHEST_SEC_PRIORITY: nat := 0
  const LOWEST_SEC_PRIORITY: nat := 127
  const HIGHEST_NS_PRIORITY: nat := 128
  const LOWEST_NS_PRIORITY: nat := 254

  const ENABLE_GRP0: nat := 1
  const ENABLE_GRP1: nat := 2
  const IT_LINES_NO_MASK: nat := 0x1F

  class Distributor {
    var ctlr: Word
    const typer: Word
    const igroupr: array<Word>
    const isenabler: array<Word>
    const ipriorityr: array<Word>
    const itargetsr: array<Word>

    /** The register banks for up to 1024 interrupts, at different addresses. */
    ghost predicate Valid() {
      && igroupr.Length == isenabler.Length == 32 && ipriorityr.Length == itargetsr.Length == 256
      && igroupr != isenabler && igroupr != ipriorityr && igroupr != itargetsr
      && isenabler != ipriorityr && isenabler != itargetsr && ipriorityr != itargetsr
    }

    constructor (ctlr: Word, typer: Word)
      ensures Valid() && this.ctlr == ctlr && this.typer == typer
      ensures fresh(igroupr) && fresh(isenabler) && fresh(ipriorityr) && fresh(itargetsr)
      ensures forall n :: 0 <= n < 32 ==> igroupr[n] == isenabler[n] == 0
      ensures forall n :: 0 <= n < 256 ==> ipriorityr[n] == itargetsr[n] == 0
    {
      this.ctlr, this.typer := ctlr, typer;
      igroupr := new Word[32](_ => 0);
      isenabler := new Word[32](_ => 0);
      ipriorityr := new Word[256](_ => 0);
      itargetsr := new Word[256](_ => 0);
    }

    // ---- the fields of one interrupt

    predicate InGroup1(id: nat)
      requires Valid() && id < 1024
      reads igroupr
    {
      Bit(igroupr[id / 32], id % 32)
    }

    predicate Enabled(id: nat)
      requires Valid() && id < 1024
      reads isenabler
    {
      Bit(isenabler[id / 32], id % 32)
    }

    function Priority(id: nat): nat
      requires Valid() && id < 1024
      reads ipriorityr
    {
      Byte(ipriorityr[id / 4], id % 4)
    }

    function Target(id: nat): nat
      requires Valid() && id < 1024
      reads itargetsr
    {
      Byte(itargetsr[id / 4], id % 4)
    }

    /** Neither group is forwarded to the processors. */
    predicate Off()
      reads this`ctlr
    {
      !Bit(ctlr, 0) && !Bit(ctlr, 1)
    }

    // ---- register accessors; all of them are used only while the distributor is off

    /** `gicd_write_igroupr`: a whole register, 32 interrupts. */
    method WriteIgroupr(id: nat, val: Word)
      requires Valid() && id < 1024 && Off()
      modifies igroupr
      ensures igroupr[id / 32] == val
      ensures forall n :: 0 <= n < 32 && n != id / 32 ==> igroupr[n] == old(igroupr[n])
    {
      igroupr[id / 32] := val;
    }

    /** `gicd_clr_igroupr`. */
    method ClrIgroupr(id: nat)
      requires Valid() && id < 1024 && Off()
      modifies igroupr
      ensures forall j :: 0 <= j < 1024 ==> (InGroup1(j) <==> j != id && old(InGroup1(j)))
    {
      ghost var before := igroupr[id / 32];
      WriteIgroupr(id, ClearBit(igroupr[id / 32], id % 32));
      forall j | 0 <= j < 1024 ensures InGroup1(j) <==> j != id && old(InGroup1(j)) {
        if j / 32 == id / 32 { ClearBitBit(before, id % 32, j % 32); }
      }
    }

    /** `gicd_set_isenabler`: a write sets the bits that are one in it and no other. */
    method SetIsenabler(id: nat)
      requires Valid() && id < 1024 && Off()
      modifies isenabler
      ensures forall j :: 0 <= j < 1024 ==> (Enabled(j) <==> j == id || old(Enabled(j)))
    {
      ghost var before := isenabler[id / 32];
      isenabler[id / 32] := SetBit(isenabler[id / 32], id % 32);
      forall j | 0 <= j < 1024 ensures Enabled(j) <==> j == id || old(Enabled(j)) {
        if j / 32 == id / 32 { SetBitBit(before, id % 32, j % 32); }
      }
    }

    /** `gicd_set_ipriorityr`; the second precondition is its assertion. */
    method SetIpriorityr(id: nat, pri: nat)
      requires Valid() && id < 1024 && Off()
      requires if InGroup1(id) then HIGHEST_NS_PRIORITY <= pri <= LOWEST_NS_PRIORITY
               else HIGHEST_SEC_PRIORITY <= pri <= LOWEST_SEC_PRIORITY
      modifies ipriorityr
      ensures forall j :: 0 <= j < 1024 ==> Priority(j) == if j == id then pri else old(Priority(j))
    {
      ghost var before := ipriorityr[id / 4];
      ipriorityr[id / 4] := SetByte(ipriorityr[id / 4], id % 4, pri);
      forall j | 0 <= j < 1024 ensures Priority(j) == if j == id then pri else old(Priority(j)) {
        if j / 4 == id / 4 { SetByteByte(before, id % 4, pri, j % 4); }
      }
    }

    /** `gicd_set_itargetsr`: processors are added to the targets. */
    method SetItargetsr(id: nat, target: nat)
      requires Valid() && id < 1024 && Off() && target <= 0xFF
      modifies itargetsr
      ensures forall j :: 0 <= j < 1024 ==> Target(j) == if j == id then Or(old(Target(j)), target) else old(Target(j))
    {
      ghost var before := itargetsr[id / 4];
      itargetsr[id / 4] := OrByte(itargetsr[id / 4], id % 4, target);
      forall j | 0 <= j < 1024 ensures Target(j) == if j == id then Or(old(Target(j)), target) else old(Target(j)) {
        if j / 4 == id / 4 { OrByteByte(before, id % 4, target, j % 4); }
      }
    }

    /** `gicd_write_ipriorityr` with the default value: four interrupts. */
    method WriteDefaultPriorities(index: nat)
      requires Valid() && index < 1024 && index % 4 == 0 && Off()
      modifies ipriorityr
      ensures forall j :: 0 <= j < 1024 ==>
        Priority(j) == if index <= j < index + 4 then HIGHEST_NS_PRIORITY else old(Priority(j))
    {
      ipriorityr[index / 4] := FourBytes(HIGHEST_NS_PRIORITY);
      forall j | 0 <= j < 1024
        ensures Priority(j) == if index <= j < index + 4 then HIGHEST_NS_PRIORITY else old(Priority(j))
      {
        if j / 4 == index / 4 { FourBytesByte(HIGHEST_NS_PRIORITY, j % 4); }
      }
    }

    // ---- set-up

    /** `num_ints` as read from GICD_TYPER. */
    function NumInts(): (n: nat)
      ensures n == 32 * (typer % 32 + 1) <= 1024
    {
      MaskIsRemainder(typer);
      (And(typer, IT_LINES_NO_MASK) + 1) * 32
    }

    ghost predicate Listed(irqs: seq<nat>, n: nat, id: nat)
      requires n <= |irqs|
    {
      exists k :: 0 <= k < n && irqs[k] == id
    }

    /** Lines 142-145: all shared interrupts are non-secure. */
    method DefaultSpiGroups()
      requires Valid() && Off()
      modifies igroupr
      ensures forall j :: 0 <= j < 1024 ==> (InGroup1(j) <==> MIN_SPI_ID <= j < NumInts() || old(InGroup1(j)))
    {
      var index := MIN_SPI_ID;
      while index < NumInts()
        invariant 32 <= index <= NumInts() && index % 32 == 0
        invariant forall j :: 0 <= j < 1024 ==> (InGroup1(j) <==> MIN_SPI_ID <= j < index || old(InGroup1(j)))
      {
        WriteIgroupr(index, 0xFFFF_FFFF);
        index := index + 32;
        forall j | 0 <= j < 1024 ensures InGroup1(j) <==> MIN_SPI_ID <= j < index || old(InGroup1(j)) {
          AllOnes(j % 32);
        }
      }
    }

    /** Lines 81-84 and 148-151: the default priority, four interrupts at a time. */
    method DefaultPriorities(from: nat, to: nat)
      requires Valid() && Off() && from <= to <= 1024 && from % 4 == to % 4 == 0
      modifies ipriorityr
      ensures forall j :: 0 <= j < 1024 ==>
        Priority(j) == if from <= j < to then HIGHEST_NS_PRIORITY else old(Priority(j))
    {
      var index := from;
      while index < to
        invariant from <= index <= to && index % 4 == 0
        invariant forall j :: 0 <= j < 1024 ==>
          Priority(j) == if from <= j < index then HIGHEST_NS_PRIORITY else old(Priority(j))
      {
        WriteDefaultPriorities(index);
        index := index + 4;
      }
    }

    /** Lines 158-170: the listed shared interrupts become secure, urgent, routed to `cpu` and enabled. */
    method ConfigureSpis(irqs: seq<nat>, cpu: nat)
      requires Valid() && Off() && cpu <= 0xFF && forall k :: 0 <= k < |irqs| ==> irqs[k] < NumInts()
      modifies igroupr, ipriorityr, itargetsr, isenabler
      ensures forall j :: 0 <= j < 1024 ==>
        var spi := Listed(irqs, |irqs|, j) && j >= MIN_SPI_ID;
        && (InGroup1(j) <==> !spi && old(InGroup1(j)))
        && Priority(j) == (if spi then HIGHEST_SEC_PRIORITY else old(Priority(j)))
        && (Enabled(j) <==> spi || old(Enabled(j)))
        && (spi ==> And(Target(j), cpu) == cpu) && (!spi ==> Target(j) == old(Target(j)))
    {
      var index := 0;
      while index < |irqs|
        invariant 0 <= index <= |irqs|
        invariant forall j :: 0 <= j < 1024 ==>
          (InGroup1(j) <==> !(Listed(irqs, index, j) && j >= MIN_SPI_ID) && old(InGroup1(j)))
        invariant forall j :: 0 <= j < 1024 ==>
          Priority(j) == if Listed(irqs, index, j) && j >= MIN_SPI_ID then HIGHEST_SEC_PRIORITY else old(Priority(j))
        invariant forall j :: 0 <= j < 1024 ==>
          (Enabled(j) <==> (Listed(irqs, index, j) && j >= MIN_SPI_ID) || old(Enabled(j)))
        invariant forall j :: 0 <= j < 1024 ==>
          if Listed(irqs, index, j) && j >= MIN_SPI_ID then And(Target(j), cpu) == cpu else Target(j) == old(Target(j))
      {
        var irq := irqs[index];
        if irq >= MIN_SPI_ID {
          ghost var target := Target(irq);
          ClrIgroupr(irq);
          SetIpriorityr(irq, HIGHEST_SEC_PRIORITY);
          SetItargetsr(irq, cpu);
          SetIsenabler(irq);
          OrHolds(target, cpu);
        }
        ListedNext(irqs, index);
        index := index + 1;
      }
    }

    lemma ListedNext(irqs: seq<nat>, n: nat)
      requires n < |irqs|
      ensures forall id :: Listed(irqs, n + 1, id) <==> Listed(irqs, n, id) || irqs[n] == id
    {
      forall id: nat ensures Listed(irqs, n + 1, id) <==> Listed(irqs, n, id) || irqs[n] == id {
        if Listed(irqs, n + 1, id) { var k :| 0 <= k < n + 1 && irqs[k] == id; }
        if Listed(irqs, n, id) {
          var k :| 0 <= k < n && irqs[k] == id;
          assert irqs[k] == id && k < n + 1;
        }
      }
    }

    /** `arm_gic_pcpu_distif_setup`: the processor's own interrupts. */
    method PcpuDistifSetup(irqs: seq<nat>)
      requires Valid() && Off() && (forall k :: 0 <= k < |irqs| ==> irqs[k] < NumInts())
      requires forall k :: 0 <= k < |irqs| && irqs[k] < MIN_SPI_ID ==> !InGroup1(irqs[k])
      modifies igroupr, ipriorityr, isenabler
      ensures forall j :: 0 <= j < 1024 ==>
        var ppi := Listed(irqs, |irqs|, j) && j < MIN_SPI_ID;
        && (InGroup1(j) <==> if j < MIN_SPI_ID then !ppi else old(InGroup1(j)))
        && Priority(j) == (if ppi then HIGHEST_SEC_PRIORITY else if j < MIN_SPI_ID then HIGHEST_NS_PRIORITY
                           else old(Priority(j)))
        && (Enabled(j) <==> ppi || old(Enabled(j)))
    {
      DefaultPriorities(0, MIN_SPI_ID);
      var mask: Word := 0;
      var index := 0;
      forall j | 0 <= j < MIN_SPI_ID ensures !Bit(mask, j) { ZeroBit(j); }
      while index < |irqs|
        invariant 0 <= index <= |irqs|
        invariant forall j :: 0 <= j < MIN_SPI_ID ==> (Bit(mask, j) <==> Listed(irqs, index, j))
        invariant forall n :: 0 <= n < 32 ==> igroupr[n] == old(igroupr[n])
        invariant forall j :: 0 <= j < 1024 ==>
          Priority(j) == if Listed(irqs, index, j) && j < MIN_SPI_ID then HIGHEST_SEC_PRIORITY
                         else if j < MIN_SPI_ID then HIGHEST_NS_PRIORITY else old(Priority(j))
        invariant forall j :: 0 <= j < 1024 ==>
          (Enabled(j) <==> (Listed(irqs, index, j) && j < MIN_SPI_ID) || old(Enabled(j)))
      {
        var irq := irqs[index];
        if irq < MIN_SPI_ID {
          forall j | 0 <= j < MIN_SPI_ID ensures Bit(SetBit(mask, irq), j) <==> irq == j || Bit(mask, j) {
            SetBitBit(mask, irq, j);
          }
          mask := SetBit(mask, irq);
          assert !old(InGroup1(irq)) && igroupr[irq / 32] == old(igroupr[irq / 32]);
          SetIpriorityr(irq, HIGHEST_SEC_PRIORITY);
          SetIsenabler(irq);
        }
        ListedNext(irqs, index);
        index := index + 1;
      }
      forall j | 0 <= j < MIN_SPI_ID ensures Bit(Not32(mask), j) <==> !Bit(mask, j) { Not32Bit(mask, j); }
      WriteIgroupr(0, Not32(mask));
      assert forall j :: MIN_SPI_ID <= j < 1024 ==> igroupr[j / 32] == old(igroupr[j / 32]);
    }

    /** `arm_gic_get_cpuif_id`. */
    function CpuifId(): (cpu: nat)
      requires Valid()
      reads itargetsr
      ensures cpu == itargetsr[0] % 0x100
    {
      MaskIsRemainder(itargetsr[0]);
      And(itargetsr[0], 0xFF)
    }

    /**
     `arm_gic_distif_setup`. The listed interrupts of the processor itself must be in group 0, as
     `gicd_set_ipriorityr` asserts; they are at reset and after an earlier set-up. Every listed interrupt ends in
     group 0 with priority 0, enabled and, if shared, routed to this processor; every other one ends in group 1
     with priority 0x80, and neither enabled nor rerouted. Only group 0 is forwarded in the end.
     */
    method DistifSetup(irqs: seq<nat>)
      requires Valid() && (forall k :: 0 <= k < |irqs| ==> irqs[k] < NumInts())
      requires forall k :: 0 <= k < |irqs| && irqs[k] < MIN_SPI_ID ==> !InGroup1(irqs[k])
      modifies this`ctlr, igroupr, ipriorityr, itargetsr, isenabler
      ensures Valid() && Bit(ctlr, 0) && !Bit(ctlr, 1)
      ensures forall b :: 2 <= b < 32 ==> (Bit(ctlr, b) <==> old(Bit(ctlr, b)))
      ensures forall j :: 0 <= j < NumInts() && Listed(irqs, |irqs|, j) ==>
        !InGroup1(j) && Priority(j) == HIGHEST_SEC_PRIORITY && Enabled(j)
        && (j >= MIN_SPI_ID ==> And(Target(j), old(CpuifId())) == old(CpuifId()))
      ensures forall j :: 0 <= j < NumInts() && !Listed(irqs, |irqs|, j) ==>
        InGroup1(j) && Priority(j) == HIGHEST_NS_PRIORITY
        && Enabled(j) == old(Enabled(j)) && Target(j) == old(Target(j))
    {
      TurnOff();
      DefaultSpiGroups();
      DefaultPriorities(MIN_SPI_ID, NumInts());
      var cpu := CpuifId();
      ConfigureSpis(irqs, cpu);
      PcpuDistifSetup(irqs);
      TurnOnGroup0();
    }

    /** Lines 133-135. */
    method TurnOff()
      modifies this`ctlr
      ensures Off() && forall b :: 2 <= b < 32 ==> (Bit(ctlr, b) <==> old(Bit(ctlr, b)))
    {
      ghost var before := ctlr;
      OrIsThree();
      AndBelow(ctlr, Not32(3));
      ctlr := And(ctlr, Not32(Or(ENABLE_GRP0, ENABLE_GRP1)));
      forall b | 0 <= b < 32 ensures Bit(ctlr, b) <==> b >= 2 && Bit(before, b) {
        AndBit(before, Not32(3), b);
        Not32Bit(3, b);
        assert Pow2(2) == 4;
        OnesBit(2, b);
      }
    }

    /** Line 179. */
    method TurnOnGroup0()
      requires Off()
      modifies this`ctlr
      ensures Bit(ctlr, 0) && forall b :: 1 <= b < 32 ==> (Bit(ctlr, b) <==> old(Bit(ctlr, b)))
    {
      ghost var before := ctlr;
      assert Pow2(0) == ENABLE_GRP0;
      ctlr := SetBit(ctlr, 0);
      forall b | 0 <= b < 32 ensures Bit(ctlr, b) <==> b == 0 || Bit(before, b) { SetBitBit(before, 0, b); }
    }
  }

  lemma OrIsThree()
    ensures Or(ENABLE_GRP0, ENABLE_GRP1) == 3
  {
  }

  /** A target set that was or-ed with `cpu` holds `cpu`. */
  lemma OrHolds(target: nat, cpu: nat)
    ensures And(Or(target, cpu), cpu) == cpu
  {
    forall b: nat ensures Bit(And(Or(target, cpu), cpu), b) <==> Bit(cpu, b) {
      AndBit(Or(target, cpu), cpu, b);
      OrBit(target, cpu, b);
    }
    SameBits(And(Or(target, cpu), cpu), cpu);
  }
}

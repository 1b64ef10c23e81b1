/**
 Dispatch of secure monitor calls to runtime services (CA57-code/ipl/common/runtime_svc.c). At boot
 a table of 128 indices is filled from the service descriptors; a call looks its service up in it.
 */
module RuntimeSvc {

  const MAX_RT_SVCS: nat := 128
  const OEN_LIMIT: nat := 64
  const SMC_TYPE_FAST: nat := 1
  const SMC_TYPE_YIELD: nat := 0

  type Uint8 = x: nat | x < 0x100
  type Uint32 = x: nat | x < 0x1_0000_0000

  datatype Option<+T> = None | Some(value: T)

  /** `initResult` is what the service's initialisation routine, if it has one, returns. */
  datatype Desc = Desc(startOen: Uint8, endOen: Uint8, callType: Uint8, hasInit: bool, hasHandle: bool, initResult: int)

  /** `validate_rt_svc_desc`. */
  predicate WellFormed(d: Desc) {
    && d.startOen <= d.endOen && d.endOen < OEN_LIMIT
    && (d.callType == SMC_TYPE_FAST || d.callType == SMC_TYPE_YIELD)
    && (d.hasInit || d.hasHandle)
  }

  /** The service is not rejected by its own initialisation. */
  predicate Accepted(d: Desc) { d.hasInit ==> d.initResult == 0 }

  /** Owning entity number and call type of a function id: bits 29 to 24 and bit 31. */
  function Oen(fid: Uint32): (r: nat)
    ensures r < OEN_LIMIT
  {
    fid / 0x100_0000 % 64
  }

  function CallType(fid: Uint32): (r: nat)
    ensures r < 2
  {
    fid / 0x8000_0000 % 2
  }

  /** `get_unique_oen`. */
  function UniqueOen(oen: nat, callType: nat): (r: nat)
    ensures r < MAX_RT_SVCS
  {
    callType % 2 * 64 + oen % 64
  }

  predicate Covers(d: Desc, fid: Uint32) {
    d.callType == CallType(fid) && d.startOen <= Oen(fid) <= d.endOen
  }

  /** The service that answers `fid`: the last accepted one that covers it. */
  ghost predicate Answers(descs: seq<Desc>, fid: Uint32, answer: Option<nat>) {
    match answer
    case None => forall i :: 0 <= i < |descs| && Accepted(descs[i]) ==> !Covers(descs[i], fid)
    case Some(i) =>
      && i < |descs| && Accepted(descs[i]) && Covers(descs[i], fid)
      && forall j :: i < j < |descs| && Accepted(descs[j]) ==> !Covers(descs[j], fid)
  }

  /**
   The service that answers calls of type `t` to the owning entity `o`: the last accepted one of this type
   whose entities include it.
   */
  ghost predicate Owner(descs: seq<Desc>, t: nat, o: nat, answer: Option<nat>) {
    match answer
    case None =>
      forall i :: 0 <= i < |descs| && (descs[i].hasInit ==> descs[i].initResult == 0) ==>
        descs[i].callType != t || o < descs[i].startOen || descs[i].endOen < o
    case Some(i) =>
      && i < |descs| && (descs[i].hasInit ==> descs[i].initResult == 0)
      && descs[i].callType == t && descs[i].startOen <= o <= descs[i].endOen
      && forall j :: i < j < |descs| && (descs[j].hasInit ==> descs[j].initResult == 0) ==>
           descs[j].callType != t || o < descs[j].startOen || descs[j].endOen < o
  }

  /** Bit 31 of a function id is the call type, bits 29 to 24 are the owning entity. */
  lemma FidParts(fid: Uint32, t: nat, b: nat, o: nat, n: nat)
    requires t < 2 && b < 2 && o < 64 && n < 0x100_0000
    requires fid == t * 0x8000_0000 + b * 0x4000_0000 + o * 0x100_0000 + n
    ensures CallType(fid) == t && Oen(fid) == o
  {
    assert fid / 0x100_0000 == 128 * t + 64 * b + o;
  }

  /** The answer to a function id is the owner of its entity and type. */
  lemma AnswersAreOwners(descs: seq<Desc>, fid: Uint32, t: nat, b: nat, o: nat, n: nat, answer: Option<nat>)
    requires t < 2 && b < 2 && o < 64 && n < 0x100_0000
    requires fid == t * 0x8000_0000 + b * 0x4000_0000 + o * 0x100_0000 + n
    ensures Answers(descs, fid, answer) <==> Owner(descs, t, o, answer)
  {
    FidParts(fid, t, b, o, n);
    OwnerBy(descs, fid, t, o, answer);
  }

  lemma OwnerBy(descs: seq<Desc>, fid: Uint32, t: nat, o: nat, answer: Option<nat>)
    requires t == CallType(fid) && o == Oen(fid)
    ensures Answers(descs, fid, answer) <==> Owner(descs, t, o, answer)
  {
  }

  lemma TypeBit(fid: Uint32)
    ensures CallType(fid) == fid / 0x8000_0000 && Oen(fid) == fid / 0x100_0000 % 64
  {
  }

  /** There is exactly one answer to every function id. */
  lemma {:induction false} OneAnswer(descs: seq<Desc>, fid: Uint32)
    ensures exists a :: Answers(descs, fid, a) && forall b :: Answers(descs, fid, b) ==> b == a
  {
    if descs == [] {
      assert Answers(descs, fid, None);
      return;
    }
    var last := |descs| - 1;
    if Accepted(descs[last]) && Covers(descs[last], fid) {
      assert Answers(descs, fid, Some(last));
    } else {
      OneAnswer(descs[..last], fid);
      var a :| Answers(descs[..last], fid, a);
      assert Answers(descs, fid, a);
    }
    forall a, b | Answers(descs, fid, a) && Answers(descs, fid, b) ensures a == b {
      if a.Some? && b.Some? { assert !(a.value < b.value) && !(b.value < a.value); }
    }
  }

  /** The slots of the table that a service answers for. */
  predicate Owns(d: Desc, slot: nat) {
    UniqueOen(d.startOen, d.callType) <= slot <= UniqueOen(d.endOen, d.callType)
  }

  /** The same as `Answers`, slot by slot. */
  ghost predicate Fills(descs: seq<Desc>, slot: nat, answer: Option<nat>) {
    match answer
    case None => forall i :: 0 <= i < |descs| && Accepted(descs[i]) ==> !Owns(descs[i], slot)
    case Some(i) =>
      && i < |descs| && Accepted(descs[i]) && Owns(descs[i], slot)
      && forall j :: i < j < |descs| && Accepted(descs[j]) ==> !Owns(descs[j], slot)
  }

  lemma UniqueOenIs(oen: nat, callType: nat)
    requires oen < OEN_LIMIT && callType < 2
    ensures UniqueOen(oen, callType) == callType * OEN_LIMIT + oen
  {
    assert oen % 64 == oen && callType % 2 == callType;
  }

  lemma OwnsByType(d: Desc, oen: nat, callType: nat)
    requires WellFormed(d) && oen < OEN_LIMIT && callType < 2
    ensures Owns(d, UniqueOen(oen, callType)) <==> d.callType == callType && d.startOen <= oen <= d.endOen
  {
    UniqueOenIs(oen, callType);
    UniqueOenIs(d.startOen, d.callType);
    UniqueOenIs(d.endOen, d.callType);
  }

  lemma CoversBySlot(d: Desc, fid: Uint32)
    requires WellFormed(d)
    ensures Covers(d, fid) <==> Owns(d, UniqueOen(Oen(fid), CallType(fid)))
  {
    OwnsByType(d, Oen(fid), CallType(fid));
  }

  lemma AnswersBySlot(descs: seq<Desc>, fid: Uint32, answer: Option<nat>)
    requires forall i :: 0 <= i < |descs| ==> WellFormed(descs[i])
    requires Fills(descs, UniqueOen(Oen(fid), CallType(fid)), answer)
    ensures Answers(descs, fid, answer)
  {
    forall i | 0 <= i < |descs| ensures Covers(descs[i], fid) <==> Owns(descs[i], UniqueOen(Oen(fid), CallType(fid))) {
      CoversBySlot(descs[i], fid);
    }
  }

  /** One more descriptor: the slots it owns are its own, the others stay as they were. */
  lemma FillsNext(descs: seq<Desc>, n: nat, slot: nat, before: Option<nat>)
    requires n < |descs| && Fills(descs[..n], slot, before)
    ensures Fills(descs[..n + 1], slot, if Accepted(descs[n]) && Owns(descs[n], slot) then Some(n) else before)
  {
    assert descs[..n + 1] == descs[..n] + [descs[n]];
  }

  class Dispatcher {
    const descs: seq<Desc>
    const indices: array<Uint8>

    ghost predicate Valid() { indices.Length == MAX_RT_SVCS }

    /** The table agrees with the first `n` descriptors. */
    ghost predicate Agrees(n: nat)
      requires Valid() && n <= |descs|
      reads indices
    {
      forall u :: 0 <= u < MAX_RT_SVCS ==> Fills(descs[..n], u, Entry(indices[u], n))
    }

    static function Entry(index: Uint8, n: nat): Option<nat> {
      if index >= n then None else Some(index as nat)
    }

    constructor (descs: seq<Desc>)
      ensures Valid() && this.descs == descs && fresh(indices)
    {
      this.descs := descs;
      indices := new Uint8[MAX_RT_SVCS](_ => 0);
    }

    /** `runtime_svc_init`; false where it panics or its assertion on the number of services fails. */
    method RuntimeSvcInit() returns (ok: bool)
      requires Valid()
      modifies indices
      ensures ok <==> |descs| < MAX_RT_SVCS && forall i :: 0 <= i < |descs| ==> WellFormed(descs[i])
      ensures ok ==> Agrees(|descs|)
    {
      if |descs| >= MAX_RT_SVCS { return false; }
      if |descs| == 0 { return true; }
      forall i | 0 <= i < MAX_RT_SVCS { indices[i] := 0xFF; }
      var index := 0;
      while index < |descs|
        invariant 0 <= index <= |descs| && forall i :: 0 <= i < index ==> WellFormed(descs[i])
        invariant Agrees(index)
        invariant forall u :: 0 <= u < MAX_RT_SVCS ==> indices[u] < index || indices[u] == 0xFF
      {
        var service := descs[index];
        if !WellFormed(service) { return false; }
        if service.hasInit && service.initResult != 0 {
          forall u | 0 <= u < MAX_RT_SVCS ensures Fills(descs[..index + 1], u, Entry(indices[u], index + 1)) {
            FillsNext(descs, index, u, Entry(indices[u], index));
          }
        } else {
          Register(index);
        }
        index := index + 1;
      }
      return true;
    }

    /** Lines 145-152: the slots of the service's owning entities point to it. */
    method Register(n: nat)
      requires Valid() && n < |descs| < MAX_RT_SVCS && WellFormed(descs[n]) && Accepted(descs[n]) && Agrees(n)
      requires forall u :: 0 <= u < MAX_RT_SVCS ==> indices[u] < n || indices[u] == 0xFF
      modifies indices
      ensures Agrees(n + 1)
      ensures forall u :: 0 <= u < MAX_RT_SVCS ==> indices[u] < n + 1 || indices[u] == 0xFF
    {
      var start := UniqueOen(descs[n].startOen, descs[n].callType);
      var end := UniqueOen(descs[n].endOen, descs[n].callType);
      var slot := start;
      while slot <= end
        invariant start <= slot <= end + 1 <= MAX_RT_SVCS
        invariant forall u :: 0 <= u < MAX_RT_SVCS ==>
          indices[u] == if start <= u < slot then n else old(indices[u])
      {
        indices[slot] := n;
        slot := slot + 1;
      }
      forall u | 0 <= u < MAX_RT_SVCS ensures Fills(descs[..n + 1], u, Entry(indices[u], n + 1)) {
        FillsNext(descs, n, u, old(Entry(indices[u], n)));
      }
    }

    /**
     `handle_runtime_svc`: the service whose handler is called, or `None` for SMC_UNK. It is the
     answer that a linear search for the last accepted service covering the call gives.
     */
    method HandleRuntimeSvc(fid: Uint32) returns (service: Option<nat>)
      requires Valid() && Agrees(|descs|) && forall i :: 0 <= i < |descs| ==> WellFormed(descs[i])
      ensures Answers(descs, fid, service)
      ensures Owner(descs, fid / 0x8000_0000, fid / 0x100_0000 % 64, service)
    {
      var idx := UniqueOen(Oen(fid), CallType(fid));
      var index := indices[idx];
      assert descs[..|descs|] == descs;
      AnswersBySlot(descs, fid, Entry(index, |descs|));
      TypeBit(fid);
      OwnerBy(descs, fid, fid / 0x8000_0000, fid / 0x100_0000 % 64, Entry(index, |descs|));
      if index >= |descs| { return None; }
      return Some(index as nat);
    }
  }
}

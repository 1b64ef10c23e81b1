/**
 Device enumeration of the U-Boot API (CA57-code/u-boot/api/api_storage.c and API_dev_enum in
 api.c). The caller hands the cookie of the previous device back; the service remembers only, for
 each group of storage devices, whether its enumeration has started and ended.
 */
module StorageEnum {

  const ENUM_MAX: nat := 5
  const NULL: nat := 0

  /** Addresses of the devices of a group, by index; `NULL` where there is none. */
  type Group = seq<nat>

  /** `active` are the storage devices of known type; a group that is not configured has none. */
  datatype Inventory = Inventory(groups: seq<Group>, configured: seq<bool>, net: nat, active: set<nat>)

  ghost predicate DistinctDevices(t: Inventory) {
    && (forall g, i, h, j
          | 0 <= g < |t.groups| && 0 <= i < |t.groups[g]| && 0 <= h < |t.groups| && 0 <= j < |t.groups[h]| ::
          t.groups[g][i] == t.groups[h][j] && t.groups[g][i] != NULL ==> g == h && i == j)
    && (t.net != NULL ==> t.net !in t.active && forall g :: 0 <= g < |t.groups| ==> t.net !in t.groups[g])
  }

  ghost predicate Good(t: Inventory) {
    && |t.groups| == |t.configured| == ENUM_MAX && DistinctDevices(t)
    && forall g :: 0 <= g < ENUM_MAX && !t.configured[g] ==> t.groups[g] == []
  }

  // ---- the list

  /**
   The devices that are enumerated from index `i` of group `g` on: a device of unknown type ends its
   group.
   */
  function ListFrom(t: Inventory, g: nat, i: nat): (r: seq<nat>)
    requires g <= |t.groups| && (g < |t.groups| ==> i <= |t.groups[g]|)
    decreases |t.groups| - g, if g < |t.groups| then |t.groups[g]| - i else 0
  {
    if g == |t.groups| then []
    else if i == |t.groups[g]| then ListFrom(t, g + 1, 0)
    else if t.groups[g][i] == NULL then ListFrom(t, g, i + 1)
    else if t.groups[g][i] !in t.active then ListFrom(t, g + 1, 0)
    else [t.groups[g][i]] + ListFrom(t, g, i + 1)
  }

  /** Everything that is enumerated: the network device, if any, then the storage devices. */
  function Listed(t: Inventory): seq<nat> {
    (if t.net == NULL then [] else [t.net]) + ListFrom(t, 0, 0)
  }

  /** No device of group `g` in the stretch is of unknown type. */
  ghost predicate Clear(t: Inventory, g: nat, i: nat, j: nat)
    requires g < |t.groups| && j <= |t.groups[g]|
  {
    forall k :: i <= k < j ==> t.groups[g][k] == NULL || t.groups[g][k] in t.active
  }

  /**
   `dev` is at index `j` of group `h`, at or after index `i` of group `g`, with no device of unknown type
   before it in its group.
   */
  ghost predicate Seen(t: Inventory, g: nat, i: nat, h: nat, j: nat, dev: nat) {
    && g <= h < |t.groups| && j < |t.groups[h]| && (h == g ==> i <= j)
    && t.groups[h][j] == dev && dev != NULL && Clear(t, h, if h == g then i else 0, j + 1)
  }

  ghost predicate SeenFrom(t: Inventory, g: nat, i: nat, dev: nat) {
    exists h: nat, j: nat :: Seen(t, g, i, h, j, dev)
  }

  /** The list ends its group at index `i`. */
  predicate EndsGroup(t: Inventory, g: nat, i: nat)
    requires g < |t.groups| && i <= |t.groups[g]|
  {
    i == |t.groups[g]| || (t.groups[g][i] != NULL && t.groups[g][i] !in t.active)
  }

  lemma SeenInNextGroup(t: Inventory, g: nat, i: nat, dev: nat, g1: nat)
    requires g < |t.groups| && i <= |t.groups[g]| && EndsGroup(t, g, i) && g1 == g + 1
    ensures SeenFrom(t, g, i, dev) <==> SeenFrom(t, g1, 0, dev)
  {
    if SeenFrom(t, g, i, dev) {
      var h: nat, j: nat :| Seen(t, g, i, h, j, dev);
      assert Seen(t, g1, 0, h, j, dev);
    }
    if SeenFrom(t, g1, 0, dev) {
      var h: nat, j: nat :| Seen(t, g1, 0, h, j, dev);
      assert Seen(t, g, i, h, j, dev);
    }
  }

  lemma SeenAtNextIndex(t: Inventory, g: nat, i: nat, dev: nat, i1: nat)
    requires g < |t.groups| && i < |t.groups[g]| && !EndsGroup(t, g, i) && i1 == i + 1
    ensures SeenFrom(t, g, i, dev) <==> SeenFrom(t, g, i1, dev) || (dev == t.groups[g][i] && dev != NULL)
  {
    if SeenFrom(t, g, i, dev) {
      var h: nat, j: nat :| Seen(t, g, i, h, j, dev);
      if h != g || j != i { assert Seen(t, g, i1, h, j, dev); }
    }
    if SeenFrom(t, g, i1, dev) {
      var h: nat, j: nat :| Seen(t, g, i1, h, j, dev);
      assert Seen(t, g, i, h, j, dev);
    }
    if dev == t.groups[g][i] && dev != NULL { assert Seen(t, g, i, g, i, dev); }
  }

  /** The list from a position holds exactly the devices that are seen from it. */
  lemma {:induction false} ListHolds(t: Inventory, g: nat, i: nat, dev: nat)
    requires g <= |t.groups| && (g < |t.groups| ==> i <= |t.groups[g]|)
    ensures dev in ListFrom(t, g, i) <==> SeenFrom(t, g, i, dev)
    decreases |t.groups| - g, if g < |t.groups| then |t.groups[g]| - i else 0
  {
    if g < |t.groups| {
      if EndsGroup(t, g, i) {
        SeenInNextGroup(t, g, i, dev, g + 1);
        ListHolds(t, g + 1, 0, dev);
      } else {
        SeenAtNextIndex(t, g, i, dev, i + 1);
        ListHolds(t, g, i + 1, dev);
      }
    }
  }

  /** The list names no device twice. */
  lemma {:induction false} ListDistinct(t: Inventory, g: nat, i: nat)
    requires DistinctDevices(t) && g <= |t.groups| && (g < |t.groups| ==> i <= |t.groups[g]|)
    ensures forall a, b :: 0 <= a < b < |ListFrom(t, g, i)| ==> ListFrom(t, g, i)[a] != ListFrom(t, g, i)[b]
    decreases |t.groups| - g, if g < |t.groups| then |t.groups[g]| - i else 0
  {
    if g < |t.groups| {
      if EndsGroup(t, g, i) {
        ListDistinct(t, g + 1, 0);
      } else {
        ListDistinct(t, g, i + 1);
        if t.groups[g][i] != NULL {
          ListHolds(t, g, i + 1, t.groups[g][i]);
          assert t.groups[g][i] !in ListFrom(t, g, i + 1);
        }
      }
    }
  }

  /** Position `(g, i)` comes before position `(h, j)`. */
  predicate Before(g: nat, i: nat, h: nat, j: nat) { g < h || (g == h && i < j) }

  /** The device `dev` is at `(g, i)`. */
  predicate LiesAt(t: Inventory, g: nat, i: nat, dev: nat) {
    g < |t.groups| && i < |t.groups[g]| && t.groups[g][i] == dev != NULL
  }

  lemma LiesOnce(t: Inventory, g: nat, i: nat, h: nat, j: nat, dev: nat)
    requires DistinctDevices(t) && LiesAt(t, g, i, dev) && LiesAt(t, h, j, dev)
    ensures g == h && i == j
  {
  }

  /** What is listed from a position on lies at it or later. */
  lemma ListedLater(t: Inventory, g: nat, i: nat, dev: nat, h: nat, j: nat)
    requires DistinctDevices(t) && g <= |t.groups| && (g < |t.groups| ==> i <= |t.groups[g]|)
    requires dev in ListFrom(t, g, i) && LiesAt(t, h, j, dev)
    ensures !Before(h, j, g, i)
  {
    ListHolds(t, g, i, dev);
    var h1: nat, j1: nat :| Seen(t, g, i, h1, j1, dev);
    LiesOnce(t, h, j, h1, j1, dev);
  }

  /** The list is in the order of groups and indices. */
  lemma {:induction false} ListOrdered(t: Inventory, g: nat, i: nat, a: nat, b: nat, h: nat, j: nat, h': nat, j': nat)
    requires DistinctDevices(t) && g <= |t.groups| && (g < |t.groups| ==> i <= |t.groups[g]|)
    requires a < b < |ListFrom(t, g, i)|
    requires LiesAt(t, h, j, ListFrom(t, g, i)[a]) && LiesAt(t, h', j', ListFrom(t, g, i)[b])
    ensures Before(h, j, h', j')
    decreases |t.groups| - g, if g < |t.groups| then |t.groups[g]| - i else 0
  {
    if EndsGroup(t, g, i) {
      ListOrdered(t, g + 1, 0, a, b, h, j, h', j');
    } else if t.groups[g][i] == NULL {
      ListOrdered(t, g, i + 1, a, b, h, j, h', j');
    } else if a > 0 {
      ListOrdered(t, g, i + 1, a - 1, b - 1, h, j, h', j');
    } else {
      LiesOnce(t, g, i, h, j, t.groups[g][i]);
      assert ListFrom(t, g, i)[b] == ListFrom(t, g, i + 1)[b - 1];
      ListedLater(t, g, i + 1, ListFrom(t, g, i)[b], h', j');
    }
  }

  /** `dev` is in a group before the group's first device of unknown type. */
  ghost predicate InClearPart(t: Inventory, dev: nat) {
    dev != NULL && exists h: nat, j: nat {:trigger t.groups[h][j]} ::
      h < |t.groups| && j < |t.groups[h]| && t.groups[h][j] == dev && Clear(t, h, 0, j + 1)
  }

  /**
   What is enumerated: no device twice, the network device, and of every group exactly the devices before
   the first one of unknown type.
   */
  lemma ListedExactly(t: Inventory)
    requires Good(t)
    ensures forall a, b :: 0 <= a < b < |Listed(t)| ==> Listed(t)[a] != Listed(t)[b]
    ensures forall dev :: dev in Listed(t) <==>
              (dev == t.net && dev != NULL)
              || InClearPart(t, dev)
  {
    ListDistinct(t, 0, 0);
    if t.net != NULL {
      ListHolds(t, 0, 0, t.net);
      assert t.net !in ListFrom(t, 0, 0);
    }
    forall dev ensures dev in ListFrom(t, 0, 0) <==> InClearPart(t, dev) {
      ListHolds(t, 0, 0, dev);
      assert forall h: nat, j: nat :: Seen(t, 0, 0, h, j, dev) ==> InClearPart(t, dev);
      if InClearPart(t, dev) {
        var h: nat, j: nat :| h < ENUM_MAX && j < |t.groups[h]| && t.groups[h][j] == dev && Clear(t, h, 0, j + 1);
        assert Seen(t, 0, 0, h, j, dev);
      }
    }
  }

  ghost predicate HasInactive(t: Inventory, g: nat) {
    g < |t.groups| && exists i :: 0 <= i < |t.groups[g]| && t.groups[g][i] != NULL && t.groups[g][i] !in t.active
  }

  ghost predicate AllActive(t: Inventory) { forall g: nat :: !HasInactive(t, g) }

  /** All existing devices are enumerated exactly when none is of unknown type. */
  lemma ListIsCompleteExactly(t: Inventory)
    requires Good(t)
    ensures (forall g, i :: 0 <= g < ENUM_MAX && 0 <= i < |t.groups[g]| && t.groups[g][i] != NULL ==>
               t.groups[g][i] in Listed(t))
            <==> AllActive(t)
  {
    ListedExactly(t);
    if AllActive(t) {
      forall g, i | 0 <= g < ENUM_MAX && 0 <= i < |t.groups[g]| && t.groups[g][i] != NULL
        ensures t.groups[g][i] in Listed(t)
      {
        assert !HasInactive(t, g);
        assert Clear(t, g, 0, i + 1);
      }
    } else {
      var g: nat :| HasInactive(t, g);
      var i :| 0 <= i < |t.groups[g]| && t.groups[g][i] != NULL && t.groups[g][i] !in t.active;
      var dev := t.groups[g][i];
      forall h: nat, j: nat | h < ENUM_MAX && j < |t.groups[h]| && t.groups[h][j] == dev
        ensures !Clear(t, h, 0, j + 1)
      {
        assert h == g && j == i;
      }
      assert dev !in Listed(t);
    }
  }

  /** Skipping empty indices does not change the list. */
  lemma {:induction false} SkipHoles(t: Inventory, g: nat, i: nat, j: nat)
    requires g < |t.groups| && i <= j <= |t.groups[g]| && forall k :: i <= k < j ==> t.groups[g][k] == NULL
    ensures ListFrom(t, g, i) == ListFrom(t, g, j)
    decreases j - i
  {
    if i < j { SkipHoles(t, g, i + 1, j); }
  }

  /** When nothing is left from a position on, nothing is in the later groups. */
  lemma {:induction false} NothingLater(t: Inventory, g: nat, i: nat, h: nat)
    requires g < h <= |t.groups| && i <= |t.groups[g]| && ListFrom(t, g, i) == []
    ensures ListFrom(t, h, 0) == []
    decreases |t.groups| - g, |t.groups[g]| - i
  {
    if EndsGroup(t, g, i) {
      if g + 1 < h { NothingLater(t, g + 1, 0, h); }
    } else {
      NothingLater(t, g, i + 1, h);
    }
  }

  function Take(devices: seq<nat>, n: nat): seq<nat> {
    if |devices| <= n then devices else devices[..n]
  }

  // ---- one group is asked

  /** The cookie and the flags of the groups. */
  datatype Point = Point(cookie: nat, started: seq<bool>, ended: seq<bool>)

  ghost predicate Typed(t: Inventory, p: Point) {
    Good(t) && |p.started| == |p.ended| == ENUM_MAX
  }

  /** The cookie is a device of the group. */
  predicate InGroup(t: Inventory, k: nat, cookie: nat)
    requires k < |t.groups|
  {
    cookie != NULL && cookie in t.groups[k]
  }

  ghost predicate Empty(t: Inventory, g: nat, from: nat, to: nat)
    requires g < |t.groups| && to <= |t.groups[g]|
  {
    forall k :: from <= k < to ==> t.groups[g][k] == NULL
  }

  lemma InOneGroup(t: Inventory, g: nat, i: nat)
    requires Good(t) && g < ENUM_MAX && i < |t.groups[g]| && t.groups[g][i] != NULL
    ensures forall h :: 0 <= h < ENUM_MAX ==> (InGroup(t, h, t.groups[g][i]) <==> h == g)
  {
    var dev := t.groups[g][i];
    forall h | 0 <= h < ENUM_MAX ensures InGroup(t, h, dev) <==> h == g {
      if InGroup(t, h, dev) { var j :| 0 <= j < |t.groups[h]| && t.groups[h][j] == dev; }
    }
  }

  /**
   A search of group `k` with `cookie`: it starts at `from`, after the cookie if it is in the group, and
   ends with the cookie `next`; `more` says that there was a device.
   */
  ghost predicate Search(t: Inventory, k: nat, cookie: nat, from: nat, next: nat, found: bool, more: bool)
    requires Good(t) && k < ENUM_MAX
  {
    if !t.configured[k] then !found && !more && next == cookie && from == 0
    else
      && from <= |t.groups[k]|
      && (if InGroup(t, k, cookie) then from > 0 && t.groups[k][from - 1] == cookie else from == 0)
      && found == (more && next in t.active)
      && (if more then exists i :: from <= i < |t.groups[k]| && t.groups[k][i] == next != NULL && Empty(t, k, from, i)
          else next == NULL && Empty(t, k, from, |t.groups[k]|))
  }

  /** The group is asked for its next device. */
  ghost predicate Asks(t: Inventory, k: nat, b: Point, a: Point, found: bool)
    requires Typed(t, b) && k < ENUM_MAX
  {
    exists from: nat, more: bool ::
      && Search(t, k, b.cookie, from, a.cookie, found, more)
      && a.started == b.started[k := !InGroup(t, k, b.cookie) || b.started[k]]
      && a.ended == b.ended[k := !more]
  }

  /** What `dev_enum_stor` does: a group that was left before is skipped, and out of order if it was not finished. */
  ghost predicate Turn(t: Inventory, k: nat, b: Point, a: Point, found: bool, outOfOrder: bool)
    requires Typed(t, b) && k < ENUM_MAX
  {
    if b.cookie != NULL && !InGroup(t, k, b.cookie) && (b.started[k] || b.ended[k]) then
      !found && outOfOrder == !b.ended[k] && a == b.(ended := b.ended[k := true])
    else if InGroup(t, k, b.cookie) && b.ended[k] then !found && !outOfOrder && a == b
    else !outOfOrder && Asks(t, k, b, a, found)
  }

  // ---- where an enumeration is

  /** The groups before `g` are finished, or were left at a device of unknown type. */
  ghost predicate Passed(t: Inventory, p: Point, g: nat)
    requires Typed(t, p)
  {
    forall h :: 0 <= h < g && h < ENUM_MAX ==> if HasInactive(t, h) then p.started[h] else p.ended[h]
  }

  ghost predicate Untouched(p: Point, g: nat) {
    (forall h :: g <= h < |p.started| ==> !p.started[h]) && (forall h :: g <= h < |p.ended| ==> !p.ended[h])
  }

  /** The cookie is the device at index `i` of group `g`. */
  ghost predicate At(t: Inventory, p: Point, g: nat, i: nat)
    requires Typed(t, p)
  {
    && g < ENUM_MAX && i < |t.groups[g]| && t.groups[g][i] == p.cookie != NULL && Clear(t, g, 0, i + 1)
    && Passed(t, p, g) && p.started[g] && !p.ended[g] && Untouched(p, g + 1)
  }

  /** `rest` remains to be enumerated. */
  ghost predicate Cursor(t: Inventory, p: Point, rest: seq<nat>)
    requires Typed(t, p)
  {
    || (p.cookie == NULL && rest == Listed(t))
    || (p.cookie == t.net && t.net != NULL && Untouched(p, 0) && rest == ListFrom(t, 0, 0))
    || (exists g: nat, i: nat :: At(t, p, g, i) && rest == ListFrom(t, g, i + 1))
  }

  /** Before group `k` is asked, `rest` remains; none of the groups from `k` on has been asked. */
  ghost predicate Fresh(t: Inventory, k: nat, p: Point, rest: seq<nat>)
    requires Typed(t, p) && k <= ENUM_MAX
  {
    && Passed(t, p, k) && Untouched(p, k) && rest == ListFrom(t, k, 0)
    && forall h :: k <= h < ENUM_MAX ==> !InGroup(t, h, p.cookie)
  }

  ghost predicate Pending(t: Inventory, k: nat, p: Point, rest: seq<nat>)
    requires Typed(t, p) && k <= ENUM_MAX
  {
    Fresh(t, k, p, rest) || exists g: nat, i: nat :: k <= g && At(t, p, g, i) && rest == ListFrom(t, g, i + 1)
  }

  /** Group `k` has returned the first of the remaining devices. */
  ghost predicate Returned(t: Inventory, k: nat, p: Point, rest: seq<nat>)
    requires Typed(t, p)
  {
    exists i: nat :: At(t, p, k, i) && rest == [p.cookie] + ListFrom(t, k, i + 1)
  }

  /** A group that was left earlier is skipped, and counts as ended. */
  lemma SkipsEarlier(t: Inventory, k: nat, b: Point, a: Point, found: bool, outOfOrder: bool, g: nat, i: nat)
    requires Typed(t, b) && At(t, b, g, i) && k < g && Turn(t, k, b, a, found, outOfOrder)
    ensures !found && Typed(t, a) && At(t, a, g, i) && a.ended[k]
    ensures outOfOrder ==> HasInactive(t, k) && ListFrom(t, k + 1, 0) != []
  {
    InOneGroup(t, g, i);
    assert b.started[k] || b.ended[k];
    if outOfOrder {
      ListHolds(t, k + 1, 0, b.cookie);
      assert Seen(t, k + 1, 0, g, i, b.cookie);
    }
  }

  /** The search ends at an active device of the group, and at the first one from `from` on. */
  lemma FindsNext(t: Inventory, k: nat, p: Point, from: nat, i: nat, rest: seq<nat>)
    requires Typed(t, p) && k < ENUM_MAX && from <= i < |t.groups[k]|
    requires t.groups[k][i] == p.cookie != NULL && p.cookie in t.active
    requires Empty(t, k, from, i) && Clear(t, k, 0, from) && rest == ListFrom(t, k, from)
    requires Passed(t, p, k) && p.started[k] && !p.ended[k] && Untouched(p, k + 1)
    ensures Returned(t, k, p, rest)
  {
    SkipHoles(t, k, from, i);
    assert At(t, p, k, i);
  }

  /** It ends at a device of unknown type: the group is left unfinished. */
  lemma LeavesGroup(t: Inventory, k: nat, p: Point, from: nat, i: nat, rest: seq<nat>)
    requires Typed(t, p) && k < ENUM_MAX && from <= i < |t.groups[k]|
    requires t.groups[k][i] == p.cookie != NULL && p.cookie !in t.active
    requires Empty(t, k, from, i) && rest == ListFrom(t, k, from)
    requires Passed(t, p, k) && p.started[k] && Untouched(p, k + 1)
    ensures Fresh(t, k + 1, p, rest)
  {
    SkipHoles(t, k, from, i);
    assert HasInactive(t, k);
    InOneGroup(t, k, i);
  }

  /** It finds nothing: the group is finished. */
  lemma FinishesGroup(t: Inventory, k: nat, p: Point, from: nat, rest: seq<nat>)
    requires Typed(t, p) && k < ENUM_MAX && from <= |t.groups[k]|
    requires Empty(t, k, from, |t.groups[k]|) && Clear(t, k, 0, from)
    requires rest == ListFrom(t, k, from) && Passed(t, p, k) && p.ended[k] && Untouched(p, k + 1)
    requires forall h :: k < h < ENUM_MAX ==> !InGroup(t, h, p.cookie)
    ensures Fresh(t, k + 1, p, rest) && !HasInactive(t, k)
  {
    SkipHoles(t, k, from, |t.groups[k]|);
  }

  /** The group that is asked returns the next device, or leaves what remains to the later groups. */
  lemma AskAdvances(t: Inventory, k: nat, b: Point, a: Point, found: bool, from: nat, more: bool, rest: seq<nat>)
    requires Typed(t, b) && k < ENUM_MAX && Search(t, k, b.cookie, from, a.cookie, found, more)
    requires a.started == b.started[k := true] && a.ended == b.ended[k := !more]
    requires from <= |t.groups[k]| && Clear(t, k, 0, from) && rest == ListFrom(t, k, from)
    requires Passed(t, b, k) && Untouched(b, k + 1) && (forall h :: k < h < ENUM_MAX ==> !InGroup(t, h, b.cookie))
    ensures Typed(t, a) && (if found then Returned(t, k, a, rest) else Fresh(t, k + 1, a, rest))
    ensures HasInactive(t, k) ==> !a.ended[k]
  {
    assert Passed(t, a, k) && Untouched(a, k + 1);
    if more {
      var i :| from <= i < |t.groups[k]| && t.groups[k][i] == a.cookie != NULL && Empty(t, k, from, i);
      if found { FindsNext(t, k, a, from, i, rest); } else { LeavesGroup(t, k, a, from, i, rest); }
    } else {
      FinishesGroup(t, k, a, from, rest);
    }
  }

  lemma AsksFresh(t: Inventory, k: nat, b: Point, a: Point, found: bool, outOfOrder: bool, rest: seq<nat>)
    requires Typed(t, b) && k < ENUM_MAX && Fresh(t, k, b, rest) && Turn(t, k, b, a, found, outOfOrder)
    ensures !outOfOrder && Typed(t, a) && (if found then Returned(t, k, a, rest) else Fresh(t, k + 1, a, rest))
    ensures HasInactive(t, k) ==> !a.ended[k]
  {
    assert !b.started[k] && !b.ended[k];
    var from: nat, more: bool :|
      && Search(t, k, b.cookie, from, a.cookie, found, more)
      && a.started == b.started[k := true] && a.ended == b.ended[k := !more];
    AskAdvances(t, k, b, a, found, from, more, rest);
  }

  lemma AsksOn(t: Inventory, b: Point, a: Point, found: bool, outOfOrder: bool, g: nat, i: nat, rest: seq<nat>)
    requires Typed(t, b) && At(t, b, g, i) && rest == ListFrom(t, g, i + 1) && Turn(t, g, b, a, found, outOfOrder)
    ensures !outOfOrder && Typed(t, a) && (if found then Returned(t, g, a, rest) else Fresh(t, g + 1, a, rest))
    ensures HasInactive(t, g) ==> !a.ended[g]
  {
    InOneGroup(t, g, i);
    var from: nat, more: bool :|
      && Search(t, g, b.cookie, from, a.cookie, found, more)
      && a.started == b.started[g := !InGroup(t, g, b.cookie) || b.started[g]] && a.ended == b.ended[g := !more];
    assert t.configured[g] && from == i + 1;
    AskAdvances(t, g, b, a, found, from, more, rest);
  }

  // ---- the groups are asked in order

  /** Some group is left at a device of unknown type although a later group has a device to enumerate. */
  ghost predicate Interrupted(t: Inventory) {
    exists g: nat :: Interrupts(t, g)
  }

  ghost predicate Interrupts(t: Inventory, g: nat) {
    g < |t.groups| && HasInactive(t, g) && ListFrom(t, g + 1, 0) != []
  }

  /** A device of unknown type in the first group and an active one in the second. */
  lemma InterruptedExample()
    ensures var t := Inventory([[1], [2], [], [], []], [true, true, false, false, false], NULL, {2});
            Good(t) && ListFrom(t, 0, 0) == [2] && Interrupted(t)
  {
    var t := Inventory([[1], [2], [], [], []], [true, true, false, false, false], NULL, {2});
    assert t.groups[0][0] == 1 && t.groups[1][0] == 2;
    assert ListFrom(t, 4, 0) == ListFrom(t, 3, 0) == ListFrom(t, 2, 0) == [];
    assert ListFrom(t, 1, 1) == ListFrom(t, 2, 0) && ListFrom(t, 1, 0) == [2] + ListFrom(t, 1, 1);
    assert HasInactive(t, 0);
    assert Interrupts(t, 0);
  }

  /** A group with a device of unknown type ends only out of order. */
  ghost predicate EndsOutOfOrder(t: Inventory, b: Point, a: Point, outOfOrder: bool)
    requires Typed(t, b) && Typed(t, a)
  {
    && (outOfOrder ==> Interrupted(t))
    && forall h: nat :: h < ENUM_MAX && HasInactive(t, h) && a.ended[h] ==> b.ended[h] || outOfOrder
  }

  lemma TurnAdvances(t: Inventory, k: nat, b: Point, a: Point, found: bool, outOfOrder: bool, rest: seq<nat>)
    requires Typed(t, b) && k < ENUM_MAX && Pending(t, k, b, rest) && Turn(t, k, b, a, found, outOfOrder)
    ensures Typed(t, a) && (if found then Returned(t, k, a, rest) else Pending(t, k + 1, a, rest))
    ensures EndsOutOfOrder(t, b, a, outOfOrder)
  {
    if Fresh(t, k, b, rest) {
      AsksFresh(t, k, b, a, found, outOfOrder, rest);
    } else {
      var g: nat, i: nat :| k <= g && At(t, b, g, i) && rest == ListFrom(t, g, i + 1);
      if g == k {
        AsksOn(t, b, a, found, outOfOrder, g, i, rest);
      } else {
        SkipsEarlier(t, k, b, a, found, outOfOrder, g, i);
        if outOfOrder { assert Interrupts(t, k); }
      }
    }
  }

  /** Before group `k`, of a sweep from `b`: no group before the cookie's own is left unfinished. */
  ghost predicate Swept(t: Inventory, k: nat, b: Point, p: Point)
    requires Typed(t, b) && Typed(t, p) && k <= ENUM_MAX
  {
    forall g: nat, i: nat :: At(t, b, g, i) ==>
      && (k <= g ==> At(t, p, g, i))
      && forall h: nat :: h < k && h < g ==> p.ended[h]
  }

  lemma SweepOn(t: Inventory, k: nat, b: Point, p: Point, a: Point, found: bool, outOfOrder: bool)
    requires Typed(t, b) && Typed(t, p) && Typed(t, a) && k < ENUM_MAX && Swept(t, k, b, p)
    requires Turn(t, k, p, a, found, outOfOrder)
    ensures Swept(t, k + 1, b, a)
  {
    forall g: nat, i: nat | At(t, b, g, i)
      ensures (k + 1 <= g ==> At(t, a, g, i)) && forall h: nat :: h < k + 1 && h < g ==> a.ended[h]
    {
      if k < g { SkipsEarlier(t, k, p, a, found, outOfOrder, g, i); }
    }
  }

  /** After the last device, every group that was left for a later one has been met out of order. */
  lemma LastMeetsAll(t: Inventory, b: Point, a: Point, k: nat)
    requires Typed(t, b) && Typed(t, a) && k <= ENUM_MAX && Swept(t, k, b, a)
    requires exists g: nat, i: nat :: At(t, b, g, i) && g <= k && ListFrom(t, g, i + 1) == []
    ensures forall h: nat :: Interrupts(t, h) ==> a.ended[h]
  {
    var g: nat, i: nat :| At(t, b, g, i) && g <= k && ListFrom(t, g, i + 1) == [];
    forall h: nat | Interrupts(t, h) ensures a.ended[h] {
      if h >= g { NothingLater(t, g, i + 1, h + 1); }
    }
  }

  // ---- the service

  class DeviceInfo {
    var cookie: nat
    constructor (cookie: nat)
      ensures this.cookie == cookie
    {
      this.cookie := cookie;
    }
  }

  class Enumerator {
    const t: Inventory
    const started: array<bool>
    const ended: array<bool>

    ghost predicate Valid() {
      Good(t) && started.Length == ended.Length == ENUM_MAX && started != ended
    }

    ghost function Here(di: DeviceInfo): Point
      reads di, started, ended
    {
      Point(di.cookie, started[..], ended[..])
    }

    constructor (t: Inventory)
      requires Good(t)
      ensures Valid() && fresh(started) && fresh(ended) && this.t == t
    {
      this.t := t;
      started := new bool[ENUM_MAX](_ => false);
      ended := new bool[ENUM_MAX](_ => false);
    }

    /** `dev_stor_get`: the next device of group `k` after the cookie. */
    method DevStorGet(k: nat, di: DeviceInfo) returns (found: bool, more: bool)
      requires Valid() && k < ENUM_MAX
      modifies di
      ensures exists from: nat :: Search(t, k, old(di.cookie), from, di.cookie, found, more)
    {
      found, more := false, false;
      if !t.configured[k] {
        assert Search(t, k, old(di.cookie), 0, di.cookie, found, more);
        return;
      }
      var i := 0;
      var foundLast := false;
      if di.cookie != NULL {
        while i < |t.groups[k]|
          invariant 0 <= i <= |t.groups[k]| && di.cookie !in t.groups[k][..i] && !foundLast
        {
          if di.cookie == t.groups[k][i] {
            i := i + 1;
            foundLast := true;
            break;
          }
          i := i + 1;
        }
        if !foundLast {
          assert t.groups[k][..i] == t.groups[k];
          i := 0;
        }
      }
      ghost var from := i;
      while i < |t.groups[k]|
        invariant from <= i <= |t.groups[k]| && !found && Empty(t, k, from, i)
      {
        di.cookie := t.groups[k][i];
        if di.cookie != NULL {
          found := true;
          break;
        }
        i := i + 1;
      }
      more := i != |t.groups[k]|;
      if found {
        if di.cookie !in t.active { found := false; }
      } else {
        di.cookie := NULL;
      }
      assert Search(t, k, old(di.cookie), from, di.cookie, found, more);
    }

    /** `dev_stor_type`: the group a device belongs to. */
    method DevStorType(dev: nat) returns (g: nat)
      requires Valid()
      ensures g <= ENUM_MAX && (g < ENUM_MAX ==> dev in t.groups[g]) && forall h :: 0 <= h < g ==> dev !in t.groups[h]
    {
      g := 0;
      while g < ENUM_MAX
        invariant 0 <= g <= ENUM_MAX && forall h :: 0 <= h < g ==> dev !in t.groups[h]
      {
        var j := 0;
        while j < |t.groups[g]|
          invariant 0 <= j <= |t.groups[g]| && dev !in t.groups[g][..j]
        {
          if dev == t.groups[g][j] { return; }
          j := j + 1;
        }
        assert t.groups[g][..j] == t.groups[g];
        g := g + 1;
      }
    }

    /** `dev_is_stor`: the devices of the groups are distinct. */
    method DevIsStor(k: nat, dev: nat) returns (member: bool)
      requires Valid() && k < ENUM_MAX && dev != NULL
      ensures member == InGroup(t, k, dev)
    {
      var g := DevStorType(dev);
      member := g == k;
      if InGroup(t, k, dev) {
        var i :| 0 <= i < |t.groups[k]| && t.groups[k][i] == dev;
        InOneGroup(t, k, i);
        assert InGroup(t, g, dev);
      }
    }

    /** `dev_enum_reset`. */
    method DevEnumReset()
      requires Valid()
      modifies started, ended
      ensures forall i :: 0 <= i < ENUM_MAX ==> !started[i] && !ended[i]
    {
      var i := 0;
      while i < ENUM_MAX
        invariant 0 <= i <= ENUM_MAX && forall h :: 0 <= h < i ==> !started[h] && !ended[h]
      {
        started[i] := false;
        ended[i] := false;
        i := i + 1;
      }
    }

    /** `dev_enum_stor`: ask group `k` for the next device; the C code reports `outOfOrder`. */
    method DevEnumStor(k: nat, di: DeviceInfo) returns (found: bool, outOfOrder: bool)
      requires Valid() && k < ENUM_MAX
      modifies di, started, ended
      ensures Turn(t, k, old(Here(di)), Here(di), found, outOfOrder)
      ensures outOfOrder <==> old(di.cookie != NULL && !InGroup(t, k, di.cookie) && started[k] && !ended[k])
    {
      ghost var b := Here(di);
      found, outOfOrder := false, false;
      var more := false;
      var own := false;
      if di.cookie == NULL {
        found, more := DevStorGet(k, di);
        started[k] := true;
      } else {
        own := DevIsStor(k, di.cookie);
        if own {
          if ended[k] { return; }
          found, more := DevStorGet(k, di);
        } else {
          if ended[k] {
            assert b.ended[k := true] == b.ended;
            return;
          }
          if !started[k] {
            started[k] := true;
            found, more := DevStorGet(k, di);
          } else {
            outOfOrder := true;
          }
        }
      }
      ended[k] := !more;
      assert Here(di).ended == b.ended[k := !more];
      if !outOfOrder { assert Here(di).started == b.started[k := !own || b.started[k]]; }
    }

    /** Asking the groups in order from `b` on has led to `a`. */
    ghost predicate SweptAll(b: Point, a: Point, found: bool, outOfOrder: bool, rest: seq<nat>)
      requires Typed(t, b) && Typed(t, a)
    {
      && (if found then exists k: nat :: Returned(t, k, a, rest) else rest == [] && Swept(t, ENUM_MAX, b, a))
      && EndsOutOfOrder(t, b, a, outOfOrder)
    }

    /** `dev_enum_storage`: ask the groups in order. */
    method DevEnumStorage(di: DeviceInfo, ghost rest: seq<nat>) returns (found: bool, outOfOrder: bool)
      requires Valid()
      modifies di, started, ended
      ensures old(Pending(t, 0, Here(di), rest)) ==> SweptAll(old(Here(di)), Here(di), found, outOfOrder, rest)
    {
      ghost var b := Here(di);
      ghost var good := Pending(t, 0, b, rest);
      outOfOrder := false;
      var i := 0;
      while i < ENUM_MAX
        invariant 0 <= i <= ENUM_MAX && (good ==> Pending(t, i, Here(di), rest))
        invariant good ==> EndsOutOfOrder(t, b, Here(di), outOfOrder) && Swept(t, i, b, Here(di))
      {
        ghost var p := Here(di);
        var one, out := DevEnumStor(i, di);
        if good {
          TurnAdvances(t, i, p, Here(di), one, out, rest);
          SweepOn(t, i, b, p, Here(di), one, out);
        }
        outOfOrder := outOfOrder || out;
        i := i + 1;
        if one { return true, outOfOrder; }
      }
      return false, outOfOrder;
    }

    /** The cookie is the first of the remaining devices, or `NULL` if there is none. */
    ghost predicate Next(p: Point, rest: seq<nat>)
      requires Typed(t, p)
    {
      if rest == [] then p.cookie == NULL else p.cookie == rest[0] && p.cookie != NULL && Cursor(t, p, rest[1..])
    }

    /**
     A call with `rest` remaining has moved the cookie to the first of it. The last call has met every
     group out of order that was left unfinished.
     */
    ghost predicate Moved(b: Point, a: Point, outOfOrder: bool, rest: seq<nat>)
      requires Typed(t, b) && Typed(t, a)
    {
      && Next(a, rest) && (outOfOrder ==> Interrupted(t))
      && (forall h: nat :: h < ENUM_MAX && HasInactive(t, h) && a.ended[h] ==>
            outOfOrder || (b.cookie != NULL && b.ended[h]))
      && (rest == [] ==> forall h: nat :: Interrupts(t, h) ==> a.ended[h])
    }

    /** `API_dev_enum`: the next of all devices, or `NULL` after the last one. */
    method ApiDevEnum(di: DeviceInfo, ghost rest: seq<nat>) returns (outOfOrder: bool)
      requires Valid()
      modifies di, started, ended
      ensures old(Cursor(t, Here(di), rest)) ==> Moved(old(Here(di)), Here(di), outOfOrder, rest)
    {
      ghost var cursor := Cursor(t, Here(di), rest);
      if di.cookie == NULL {
        DevEnumReset();
        // dev_enum_net: the network device, if there is one.
        di.cookie := t.net;
        if t.net != NULL {
          assert Listed(t)[1..] == ListFrom(t, 0, 0);
          return false;
        }
        assert Listed(t) == ListFrom(t, 0, 0);
      }
      ghost var b := Here(di);
      assert cursor ==> Pending(t, 0, b, rest);
      var found;
      found, outOfOrder := DevEnumStorage(di, rest);
      if !found {
        if cursor { Finished(b, Here(di)); }
        di.cookie := NULL;
      } else if cursor {
        ghost var k: nat :| Returned(t, k, Here(di), rest);
        ghost var i: nat :| At(t, Here(di), k, i) && rest == [di.cookie] + ListFrom(t, k, i + 1);
        assert rest[1..] == ListFrom(t, k, i + 1);
      }
    }

    lemma Finished(b: Point, a: Point)
      requires Typed(t, b) && Typed(t, a) && Swept(t, ENUM_MAX, b, a) && Pending(t, 0, b, [])
      ensures forall h: nat :: Interrupts(t, h) ==> a.ended[h]
    {
      if Fresh(t, 0, b, []) {
        forall h: nat ensures !Interrupts(t, h) { if h < ENUM_MAX { NothingLater(t, 0, 0, h + 1); } }
      } else {
        LastMeetsAll(t, b, a, ENUM_MAX);
      }
    }

    /** After `n` devices. */
    ghost predicate Going(p: Point, n: nat, outOfOrder: bool)
      requires Typed(t, p)
    {
      && n <= |Listed(t)| && Next(p, Listed(t)[n..]) && (outOfOrder ==> Interrupted(t))
      && (forall h: nat :: h < ENUM_MAX && HasInactive(t, h) && p.ended[h] ==> outOfOrder)
      && (p.cookie == NULL ==> forall h: nat :: Interrupts(t, h) ==> p.ended[h])
    }

    lemma GoesOn(b: Point, a: Point, n: nat, before: bool, outOfOrder: bool)
      requires Typed(t, b) && Typed(t, a) && Going(b, n, before) && b.cookie != NULL
      requires Cursor(t, b, Listed(t)[n..][1..]) ==> Moved(b, a, outOfOrder, Listed(t)[n..][1..])
      ensures Going(a, n + 1, before || outOfOrder) && b.cookie == Listed(t)[n]
    {
      assert Listed(t)[n..][1..] == Listed(t)[n + 1..];
    }

    lemma Gone(p: Point, n: nat, outOfOrder: bool)
      requires Typed(t, p) && Going(p, n, outOfOrder) && p.cookie == NULL
      ensures n == |Listed(t)| && (outOfOrder <==> Interrupted(t))
    {
      assert |Listed(t)[n..]| == |Listed(t)| - n;
      if Interrupted(t) { var h: nat :| Interrupts(t, h); }
    }

    /** Lines 195-202 of the client: another `device_info` gets the previous cookie. */
    method PassOn(cookie: nat, ghost n: nat, before: bool) returns (di: DeviceInfo, outOfOrder: bool)
      requires Valid() && cookie != NULL && Going(Point(cookie, started[..], ended[..]), n, before)
      modifies started, ended
      ensures fresh(di) && Going(Here(di), n + 1, outOfOrder)
    {
      di := new DeviceInfo(cookie);
      ghost var b := Here(di);
      outOfOrder := ApiDevEnum(di, Listed(t)[n..][1..]);
      GoesOn(b, Here(di), n, before, outOfOrder);
      outOfOrder := before || outOfOrder;
    }

    /**
     The client's loop (CA57-code/u-boot/examples/api/glue.c:179-206): start with no cookie, pass each
     cookie on, stop at `NULL` or when the table of `maxDevices` entries is full. The whole list is met in
     order; a group is met out of order exactly when one was left at a device of unknown type although a
     later one has a device to enumerate.
     */
    method EnumerateDevices(maxDevices: nat) returns (devices: seq<nat>, outOfOrder: bool)
      requires Valid() && maxDevices > 0
      modifies started, ended
      ensures devices == Take(Listed(t), maxDevices)
      ensures outOfOrder ==> Interrupted(t)
      ensures maxDevices > |Listed(t)| ==> (outOfOrder <==> Interrupted(t))
    {
      devices := [];
      ghost var all := Listed(t);
      var di := new DeviceInfo(NULL);
      outOfOrder := ApiDevEnum(di, all);
      assert all[0..] == all;
      while di.cookie != NULL
        invariant fresh(di) && |devices| < maxDevices && |devices| <= |all| && devices == all[..|devices|]
        invariant Going(Here(di), |devices|, outOfOrder)
        decreases maxDevices - |devices|
      {
        ghost var n := |devices|;
        assert all[n..] != [] && all[..n + 1] == all[..n] + [all[n]];
        devices := devices + [di.cookie];
        if |devices| >= maxDevices { break; }
        di, outOfOrder := PassOn(di.cookie, n, outOfOrder);
      }
      if di.cookie == NULL { Gone(Here(di), |devices|, outOfOrder); }
    }
  }
}

/**
 The lists BL2 hands to the next boot stage (CA57-code/ipl/common/desc_image_load.c). Each image
 descriptor embeds one list node; a pointer to a node is the index of its descriptor.
 */
module HandOff {

  const INVALID_IMAGE_ID: nat := 0xFFFF_FFFF
  const BL32_IMAGE_ID: nat := 4
  const BL33_IMAGE_ID: nat := 5

  datatype Option<+T> = None | Some(value: T)

  /** The fields of a descriptor that decide the lists. */
  datatype Desc = Desc(id: nat, executable: bool, firstExecutable: bool, handOffId: nat)

  /** The first descriptor with the id, as `get_bl_params_node_index` finds it. */
  ghost predicate IsIndexOf(descs: seq<Desc>, id: nat, i: nat) {
    i < |descs| && descs[i].id == id && forall j :: 0 <= j < i ==> descs[j].id != id
  }

  ghost predicate IsHead(descs: seq<Desc>, i: nat) {
    && i < |descs| && descs[i].executable && descs[i].firstExecutable
    && forall j :: 0 <= j < i ==> !(descs[j].executable && descs[j].firstExecutable)
  }

  /** `j` is the executable image, known and not the first of the table, that `i` hands off to. */
  ghost predicate HandsTo(descs: seq<Desc>, i: nat, j: nat) {
    && i < |descs| && descs[i].handOffId != INVALID_IMAGE_ID
    && j > 0 && IsIndexOf(descs, descs[i].handOffId, j)
  }

  /** A stretch of the hand-off chain from its head. */
  ghost predicate Path(descs: seq<Desc>, path: seq<nat>) {
    && path != [] && IsHead(descs, path[0])
    && (forall k :: 0 <= k < |path| ==> path[k] < |descs| && descs[path[k]].executable)
    && (forall k :: 0 <= k < |path| - 1 ==> HandsTo(descs, path[k], path[k + 1]))
  }

  /** The whole chain: it ends at an image that hands off to nobody. */
  ghost predicate Chain(descs: seq<Desc>, path: seq<nat>) {
    Path(descs, path) && descs[path[|path| - 1]].handOffId == INVALID_IMAGE_ID
  }

  ghost predicate Distinct(path: seq<nat>) {
    forall a, b :: 0 <= a < b < |path| ==> path[a] != path[b]
  }

  // ---- the chain is determined, acyclic and short

  lemma {:induction false} PathsAgree(descs: seq<Desc>, p: seq<nat>, q: seq<nat>, k: nat)
    requires Path(descs, p) && Path(descs, q) && k < |p| && k < |q|
    ensures p[k] == q[k]
  {
    if k == 0 {
      assert !(p[0] < q[0]) && !(q[0] < p[0]);
    } else {
      PathsAgree(descs, p, q, k - 1);
      assert HandsTo(descs, p[k - 1], p[k]) && HandsTo(descs, q[k - 1], q[k]);
      assert !(p[k] < q[k]) && !(q[k] < p[k]);
    }
  }

  /** No path is longer than the chain. */
  lemma PathWithinChain(descs: seq<Desc>, path: seq<nat>, chain: seq<nat>)
    requires Path(descs, path) && Chain(descs, chain)
    ensures |path| <= |chain|
  {
    if |path| > |chain| {
      assert HandsTo(descs, path[|chain| - 1], path[|chain|]);
      PathsAgree(descs, path, chain, |chain| - 1);
    }
  }

  lemma ChainUnique(descs: seq<Desc>, p: seq<nat>, q: seq<nat>)
    requires Chain(descs, p) && Chain(descs, q)
    ensures p == q
  {
    PathWithinChain(descs, p, q);
    PathWithinChain(descs, q, p);
    forall k | 0 <= k < |p| ensures p[k] == q[k] { PathsAgree(descs, p, q, k); }
  }

  /** Two equal positions of a path repeat forever. */
  lemma {:induction false} Repeats(descs: seq<Desc>, path: seq<nat>, a: nat, b: nat, n: nat)
    requires Path(descs, path) && a < b && b + n < |path| && path[a] == path[b]
    ensures path[a + n] == path[b + n]
  {
    if n > 0 {
      Repeats(descs, path, a, b, n - 1);
      assert HandsTo(descs, path[a + n - 1], path[a + n]) && HandsTo(descs, path[b + n - 1], path[b + n]);
      assert !(path[a + n] < path[b + n]) && !(path[b + n] < path[a + n]);
    }
  }

  /** A path that meets an image twice belongs to no chain. */
  lemma LoopMeansNoChain(descs: seq<Desc>, path: seq<nat>, a: nat, b: nat)
    requires Path(descs, path) && a < b < |path| && path[a] == path[b]
    ensures !exists chain :: Chain(descs, chain)
  {
    if chain :| Chain(descs, chain) {
      PathWithinChain(descs, path, chain);
      PathsAgree(descs, path, chain, a);
      PathsAgree(descs, path, chain, b);
      var n := |chain| - 1 - b;
      assert HandsTo(descs, chain[a + n], chain[a + n + 1]);
      Repeats(descs, chain, a, b, n);
    }
  }

  lemma ChainAcyclic(descs: seq<Desc>, chain: seq<nat>)
    requires Chain(descs, chain)
    ensures Distinct(chain)
  {
    if a, b :| 0 <= a < b < |chain| && chain[a] == chain[b] {
      LoopMeansNoChain(descs, chain, a, b);
    }
  }

  /** The chain would go on from the end of `path` to `link`, the head if `path` is empty. */
  ghost predicate Reaches(descs: seq<Desc>, path: seq<nat>, link: nat) {
    && link < |descs|
    && (if path == [] then IsHead(descs, link) else Path(descs, path) && HandsTo(descs, path[|path| - 1], link))
  }

  lemma Extend(descs: seq<Desc>, path: seq<nat>, link: nat)
    requires Reaches(descs, path, link) && descs[link].executable
    ensures Path(descs, path + [link])
  {
    var longer := path + [link];
    forall k | 0 <= k < |longer| - 1 ensures HandsTo(descs, longer[k], longer[k + 1]) {
      if k < |path| - 1 { assert HandsTo(descs, path[k], path[k + 1]); }
    }
  }

  /** A path that cannot go on although its last image hands off belongs to no chain. */
  lemma DeadEnd(descs: seq<Desc>, path: seq<nat>)
    requires Path(descs, path) && descs[path[|path| - 1]].handOffId != INVALID_IMAGE_ID
    requires forall j: nat :: HandsTo(descs, path[|path| - 1], j) ==> !descs[j].executable
    ensures !exists chain :: Chain(descs, chain)
  {
    if chain :| Chain(descs, chain) {
      PathWithinChain(descs, path, chain);
      if |path| < |chain| { assert HandsTo(descs, chain[|path| - 1], chain[|path|]); }
      PathsAgree(descs, path, chain, |path| - 1);
    }
  }

  /** More steps than descriptors meet some image twice. */
  lemma LongPathMeansNoChain(descs: seq<Desc>, path: seq<nat>)
    requires Path(descs, path) && |path| > |descs|
    ensures !exists chain :: Chain(descs, chain)
  {
    if Distinct(path) { DistinctPathsAreShort(descs, path); }
    else {
      var a, b :| 0 <= a < b < |path| && path[a] == path[b];
      LoopMeansNoChain(descs, path, a, b);
    }
  }

  lemma HandsToUnique(descs: seq<Desc>, i: nat, j: nat, k: nat)
    requires HandsTo(descs, i, j) && HandsTo(descs, i, k)
    ensures j == k
  {
    assert !(j < k) && !(k < j);
  }

  function Members(path: seq<nat>): set<nat> { set k | 0 <= k < |path| :: path[k] }

  lemma {:induction false} MembersCount(path: seq<nat>)
    requires Distinct(path)
    ensures |Members(path)| == |path|
  {
    if path != [] {
      var rest := path[..|path| - 1];
      MembersCount(rest);
      assert path == rest + [path[|path| - 1]];
      assert Members(path) == Members(rest) + {path[|path| - 1]};
    }
  }

  lemma {:induction false} BelowCount(s: set<nat>, n: nat)
    requires forall x :: x in s ==> x < n
    ensures |s| <= n
  {
    if n == 0 {
      assert s == {};
    } else {
      BelowCount(s - {n - 1}, n - 1);
      if n - 1 in s { assert |s| == |s - {n - 1}| + 1; } else { assert s - {n - 1} == s; }
    }
  }

  /** The pigeonhole bound of the loop at line 166: distinct descriptors are at most all of them. */
  lemma DistinctPathsAreShort(descs: seq<Desc>, path: seq<nat>)
    requires Path(descs, path) && Distinct(path)
    ensures |path| <= |descs|
  {
    MembersCount(path);
    BelowCount(Members(path), |descs|);
  }

  // ---- lists of embedded nodes

  /** The nodes along `path` are filled in from their descriptors and linked in this order. */
  ghost predicate LinkedNodes(descs: seq<Desc>, next: seq<Option<nat>>, ids: seq<nat>, entries: seq<nat>,
                              path: seq<nat>)
    requires |next| == |ids| == |entries| == |descs|
  {
    && (forall k :: 0 <= k < |path| ==> path[k] < |descs|)
    && (forall k :: 0 <= k < |path| ==> ids[path[k]] == descs[path[k]].id && entries[path[k]] == path[k])
    && (forall k :: 0 <= k < |path| - 1 ==> next[path[k]] == Some(path[k + 1]))
  }

  /** They form a list without repetition that ends in null, and no other node is linked. */
  ghost predicate OpenNodes(descs: seq<Desc>, next: seq<Option<nat>>, ids: seq<nat>, entries: seq<nat>, path: seq<nat>)
    requires |next| == |ids| == |entries| == |descs|
  {
    && Distinct(path) && LinkedNodes(descs, next, ids, entries, path)
    && (path != [] ==> next[path[|path| - 1]] == None)
    && forall i :: 0 <= i < |descs| && i !in path ==> next[i] == None
  }

  /** The last node of `path` was met before and is linked already. */
  ghost predicate ClosedNodes(descs: seq<Desc>, next: seq<Option<nat>>, path: seq<nat>)
    requires |next| == |descs|
  {
    && Path(descs, path) && next[path[|path| - 1]].Some?
    && exists a, b :: 0 <= a < b < |path| && path[a] == path[b]
  }

  /** The links after `link` is hung behind the last node of `path`. */
  ghost function Hung(next: seq<Option<nat>>, path: seq<nat>, link: nat): seq<Option<nat>>
    requires path != [] ==> path[|path| - 1] < |next|
  {
    if path == [] then next else next[path[|path| - 1] := Some(link)]
  }

  lemma HangNewNode(descs: seq<Desc>, next: seq<Option<nat>>, ids: seq<nat>, entries: seq<nat>, path: seq<nat>,
                    link: nat)
    requires |next| == |ids| == |entries| == |descs| && link < |descs| && link !in path
    requires OpenNodes(descs, next, ids, entries, path)
    ensures OpenNodes(descs, Hung(next, path, link), ids[link := descs[link].id], entries[link := link], path + [link])
  {
    var longer, hung := path + [link], Hung(next, path, link);
    forall k | 0 <= k < |longer| - 1 ensures hung[longer[k]] == Some(longer[k + 1]) {
      if k < |path| - 1 { assert path[k] != path[|path| - 1]; }
    }
    forall i | 0 <= i < |descs| && i !in longer ensures hung[i] == None {
      assert link in longer;
      assert forall x :: x in path ==> x in longer;
    }
  }

  /** A new node lengthens the list; a known one closes a loop, and then hands off to somebody. */
  lemma HangNode(descs: seq<Desc>, next: seq<Option<nat>>, ids: seq<nat>, entries: seq<nat>, path: seq<nat>, link: nat)
    requires |next| == |ids| == |entries| == |descs| && Reaches(descs, path, link) && descs[link].executable
    requires OpenNodes(descs, next, ids, entries, path)
    ensures var hung, longer := Hung(next, path, link), path + [link];
            if link !in path then OpenNodes(descs, hung, ids[link := descs[link].id], entries[link := link], longer)
            else ClosedNodes(descs, hung, longer) && descs[link].handOffId != INVALID_IMAGE_ID
  {
    if link !in path {
      HangNewNode(descs, next, ids, entries, path, link);
    } else {
      Extend(descs, path, link);
      var k :| 0 <= k < |path| && path[k] == link;
      var longer := path + [link];
      assert longer[k] == longer[|path|] == link;
      assert HandsTo(descs, longer[k], longer[k + 1]);
    }
  }

  // ---- the builders

  /** What the builder returns: nothing to build from, a failed assertion, or the head of the list. */
  datatype Built = NoImages | Stop | Head(node: nat)

  class BlParams {
    const descs: seq<Desc>
    /** The embedded nodes: link, image id and entry point (the index of its descriptor). */
    const next: array<Option<nat>>
    const nodeId: array<nat>
    const nodeEntry: array<nat>
    /** The nodes of the load list: link and image id. */
    const nextLoad: array<Option<nat>>
    const loadId: array<nat>

    ghost predicate Valid() {
      && next.Length == nodeId.Length == nodeEntry.Length == nextLoad.Length == loadId.Length == |descs|
      && next != nextLoad && nodeId != nodeEntry && loadId != nodeId && loadId != nodeEntry
    }

    ghost predicate Unlinked()
      requires Valid()
      reads next
    {
      forall i :: 0 <= i < |descs| ==> next[i] == None
    }

    constructor (descs: seq<Desc>)
      ensures Valid() && this.descs == descs && Unlinked()
      ensures fresh(next) && fresh(nodeId) && fresh(nodeEntry) && fresh(nextLoad) && fresh(loadId)
    {
      this.descs := descs;
      next := new Option<nat>[|descs|](_ => None);
      nodeId := new nat[|descs|](_ => 0);
      nodeEntry := new nat[|descs|](_ => 0);
      nextLoad := new Option<nat>[|descs|](_ => None);
      loadId := new nat[|descs|](_ => 0);
    }

    ghost predicate Linked(path: seq<nat>)
      requires Valid()
      reads next, nodeId, nodeEntry
    {
      LinkedNodes(descs, next[..], nodeId[..], nodeEntry[..], path)
    }

    /** `get_bl_params_node_index`. */
    method NodeIndex(id: nat) returns (i: int)
      ensures i == -1 ==> forall j :: 0 <= j < |descs| ==> descs[j].id != id
      ensures i != -1 ==> i >= 0 && IsIndexOf(descs, id, i)
    {
      i := 0;
      while i < |descs|
        invariant 0 <= i <= |descs| && forall j :: 0 <= j < i ==> descs[j].id != id
      {
        if descs[i].id == id { return; }
        i := i + 1;
      }
      i := -1;
    }

    /**
     `get_next_bl_params_from_mem_params_desc`. With the links initially null, every assertion passes
     exactly when there is a chain; the list is then the chain, in order and null-terminated.
     */
    method BuildHandOffList() returns (r: Built)
      requires Valid() && Unlinked()
      modifies next, nodeId, nodeEntry
      ensures r == NoImages <==> descs == []
      ensures descs != [] ==> (r.Head? <==> exists chain :: Chain(descs, chain))
      ensures r.Head? ==> forall chain :: Chain(descs, chain) ==>
        && r.node == chain[0] && Distinct(chain) && Linked(chain) && next[chain[|chain| - 1]] == None
    {
      if |descs| == 0 { return NoImages; }
      var head := FindHead();
      if head == None {
        NoHeadMeansNoChain();
        return Stop;
      }
      var link: nat := head.value;
      var last: Option<nat> := None;
      var imgId := 0;
      var count := 0;
      ghost var path: seq<nat> := [];
      ghost var done := false;
      while count < |descs|
        invariant 0 <= count <= |descs| && |path| == count && Reaches(descs, path, link)
        invariant last == if path == [] then None else Some(path[|path| - 1])
        invariant path != [] ==> imgId == descs[path[|path| - 1]].handOffId
        invariant OpenList(path) || ClosedLoop(path)
        decreases |descs| - count
      {
        if !descs[link].executable {
          NonExecutableMeansNoChain(path, link);
          return Stop;
        }
        var linked := LinkNode(link, last, path);
        if !linked { return Stop; }
        last := Some(link);
        path := path + [link];
        imgId := descs[link].handOffId;
        if imgId == INVALID_IMAGE_ID {
          done := true;
          break;
        }
        var index := NodeIndex(imgId);
        if !(index > 0 && index < |descs|) {
          assert forall j: nat :: HandsTo(descs, link, j) ==> index == j;
          DeadEnd(descs, path);
          return Stop;
        }
        link := index;
        count := count + 1;
      }
      if imgId != INVALID_IMAGE_ID {
        FullTableMeansNoChain(path, link);
        return Stop;
      }
      assert Chain(descs, path);
      forall chain | Chain(descs, chain) ensures chain == path { ChainUnique(descs, chain, path); }
      return Head(head.value);
    }

    ghost predicate OpenList(path: seq<nat>)
      requires Valid()
      reads next, nodeId, nodeEntry
    {
      OpenNodes(descs, next[..], nodeId[..], nodeEntry[..], path)
    }

    ghost predicate ClosedLoop(path: seq<nat>)
      requires Valid()
      reads next
    {
      ClosedNodes(descs, next[..], path)
    }

    lemma NoHeadMeansNoChain()
      requires forall i: nat :: !IsHead(descs, i)
      ensures !exists chain :: Chain(descs, chain)
    {
      forall chain ensures !Chain(descs, chain) {
        if chain != [] { assert !IsHead(descs, chain[0]); }
      }
    }

    lemma NonExecutableMeansNoChain(path: seq<nat>, link: nat)
      requires Valid() && Reaches(descs, path, link) && !descs[link].executable
      ensures !exists chain :: Chain(descs, chain)
    {
      if path != [] {
        var end := path[|path| - 1];
        forall j: nat | HandsTo(descs, end, j) ensures j == link {
          HandsToUnique(descs, end, link, j);
        }
        DeadEnd(descs, path);
      }
    }

    lemma FullTableMeansNoChain(path: seq<nat>, link: nat)
      requires Valid() && Reaches(descs, path, link) && |path| == |descs| > 0
      ensures !exists chain :: Chain(descs, chain)
    {
      if descs[link].executable {
        Extend(descs, path, link);
        LongPathMeansNoChain(descs, path + [link]);
      } else {
        NonExecutableMeansNoChain(path, link);
      }
    }

    /** Lines 173-190: fill in the node of `link` and hang it behind the last one. */
    method LinkNode(link: nat, last: Option<nat>, ghost path: seq<nat>) returns (ok: bool)
      requires Valid() && Reaches(descs, path, link) && descs[link].executable
      requires last == if path == [] then None else Some(path[|path| - 1])
      requires OpenList(path) || ClosedLoop(path)
      modifies next, nodeId, nodeEntry
      ensures !ok ==> !exists chain :: Chain(descs, chain)
      ensures ok ==> Path(descs, path + [link])
      ensures ok && descs[link].handOffId == INVALID_IMAGE_ID ==> OpenList(path + [link])
      ensures ok ==> OpenList(path + [link]) || ClosedLoop(path + [link])
    {
      ghost var nx, ids, entries := next[..], nodeId[..], nodeEntry[..];
      nodeId[link] := descs[link].id;
      nodeEntry[link] := link;
      Extend(descs, path, link);
      if last.Some? {
        if next[last.value].Some? {
          ghost var a, b :| 0 <= a < b < |path| && path[a] == path[b];
          LoopMeansNoChain(descs, path, a, b);
          return false;
        }
        next[last.value] := Some(link);
      }
      HangNode(descs, nx, ids, entries, path, link);
      assert next[..] == Hung(nx, path, link);
      assert nodeId[..] == ids[link := descs[link].id] && nodeEntry[..] == entries[link := link];
      return true;
    }

    /** Lines 144-154: the first image marked as the first to execute. */
    method FindHead() returns (head: Option<nat>)
      ensures head.Some? ==> IsHead(descs, head.value)
      ensures head == None ==> forall i: nat :: !IsHead(descs, i)
    {
      var count := 0;
      while count < |descs|
        invariant 0 <= count <= |descs|
        invariant forall j :: 0 <= j < count ==> !(descs[j].executable && descs[j].firstExecutable)
      {
        if descs[count].executable && descs[count].firstExecutable { return Some(count); }
        count := count + 1;
      }
      return None;
    }

    /** `get_bl_load_info_from_mem_params_desc`: all images, in table order; true if there is a list. */
    method BuildLoadList() returns (any: bool)
      requires Valid()
      modifies nextLoad, loadId
      ensures any == (descs != [])
      ensures forall i :: 0 <= i < |descs| ==> loadId[i] == descs[i].id
      ensures forall i :: 0 <= i < |descs| - 1 ==> nextLoad[i] == Some(i + 1)
      ensures descs != [] ==> nextLoad[|descs| - 1] == old(nextLoad[|descs| - 1])
    {
      if |descs| == 0 { return false; }
      var index := 0;
      while index < |descs|
        invariant 0 <= index <= |descs|
        invariant forall i :: 0 <= i < index && i < |descs| - 1 ==> nextLoad[i] == Some(i + 1)
        invariant forall i :: 0 <= i < index ==> loadId[i] == descs[i].id
        invariant nextLoad[|descs| - 1] == old(nextLoad[|descs| - 1])
      {
        loadId[index] := descs[index].id;
        if index + 1 < |descs| { nextLoad[index] := Some(index + 1); }
        index := index + 1;
      }
      return true;
    }

    /**
     `bl31_params_parse_helper` on a list of version 2: the entry points of the BL32 and BL33 nodes,
     as indices of their descriptors.
     */
    method ParseParams(head: nat, ghost chain: seq<nat>) returns (bl32: Option<nat>, bl33: Option<nat>)
      requires Valid() && chain != [] && chain[0] == head && Linked(chain) && next[chain[|chain| - 1]] == None
      ensures LastWithId(chain, BL32_IMAGE_ID, bl32) && LastWithId(chain, BL33_IMAGE_ID, bl33)
    {
      bl32, bl33 := None, None;
      var node := Some(head);
      ghost var k := 0;
      while node.Some?
        invariant 0 <= k <= |chain| && node == if k < |chain| then Some(chain[k]) else None
        invariant LastWithId(chain[..k], BL32_IMAGE_ID, bl32) && LastWithId(chain[..k], BL33_IMAGE_ID, bl33)
        decreases |chain| - k
      {
        assert chain[..k + 1] == chain[..k] + [chain[k]];
        LastWithIdStep(chain[..k], chain[k], BL32_IMAGE_ID, bl32);
        LastWithIdStep(chain[..k], chain[k], BL33_IMAGE_ID, bl33);
        if nodeId[node.value] == BL32_IMAGE_ID { bl32 := Some(nodeEntry[node.value]); }
        if nodeId[node.value] == BL33_IMAGE_ID { bl33 := Some(nodeEntry[node.value]); }
        node := next[node.value];
        k := k + 1;
      }
      assert chain[..k] == chain;
    }

    /** `found` is the last image of the list with the id. */
    ghost predicate LastWithId(list: seq<nat>, id: nat, found: Option<nat>)
      requires forall k :: 0 <= k < |list| ==> list[k] < |descs|
    {
      match found
      case None => forall k :: 0 <= k < |list| ==> descs[list[k]].id != id
      case Some(i) => exists k :: 0 <= k < |list| && list[k] == i && descs[i].id == id
                        && forall j :: k < j < |list| ==> descs[list[j]].id != id
    }

    lemma LastWithIdStep(list: seq<nat>, node: nat, id: nat, found: Option<nat>)
      requires node < |descs| && (forall k :: 0 <= k < |list| ==> list[k] < |descs|) && LastWithId(list, id, found)
      ensures LastWithId(list + [node], id, if descs[node].id == id then Some(node) else found)
    {
      var longer := list + [node];
      assert longer[|list|] == node;
      if found.Some? && descs[node].id != id {
        var k :| 0 <= k < |list| && list[k] == found.value && forall j :: k < j < |list| ==> descs[list[j]].id != id;
        assert longer[k] == found.value;
      }
    }

    /** With unique ids, the image found is the only one in the table with that id. */
    lemma UniqueIdsAreRecovered(list: seq<nat>, id: nat, found: Option<nat>, i: nat)
      requires forall k :: 0 <= k < |list| ==> list[k] < |descs|
      requires LastWithId(list, id, found) && i in list && descs[i].id == id
      requires forall a, b :: 0 <= a < b < |descs| ==> descs[a].id != descs[b].id
      ensures found == Some(i)
    {
      var k :| 0 <= k < |list| && list[k] == i;
      assert found.Some?;
      assert !(found.value < i) && !(i < found.value);
    }
  }
}

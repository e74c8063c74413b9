/** The large-object space of the Immix collector: a list of nodes, one per
    large object, each carrying an id, the start address and size of its
    block and a three-state mark. Allocation prepends a node after a capacity
    check; a sweep keeps the nodes marked Live, demoted to PrevLive, and
    releases every other node's block.
 */
module FreeList {

  /** Addresses are plain numbers; the system memory provider that hands them
      out is outside the model, so Alloc receives the address it returns. */
  type Address = nat

  datatype Option<T> = None | Some(value: T)

  /** isize::MAX on a 64-bit target: the bound Layout::from_size_align puts on
      a size rounded up to its alignment. */
  const ISIZE_MAX: nat := 0x7FFF_FFFF_FFFF_FFFF

  predicate IsPowerOfTwo(n: nat)
    decreases n
  {
    n == 1 || (n >= 2 && n % 2 == 0 && IsPowerOfTwo(n / 2))
  }

  /** What an allocation of `size` bytes aligned to `align` needs in order not
      to panic or be undefined: Layout::from_size_align accepts only a power of
      two alignment with the size, rounded up to it, within isize::MAX, and the
      global allocator must not be asked for a zero-size block. */
  predicate LayoutOk(size: nat, align: nat)
  {
    size > 0 && IsPowerOfTwo(align) && size + (align - 1) <= ISIZE_MAX
  }

  /** Liveness of a node across collection cycles. */
  datatype NodeMark = FreshAlloc | PrevLive | Live

  /** One large object: its id, block start, block size and mark. */
  datatype FreeListNode = FreeListNode(id: nat, start: Address, size: nat, mark: NodeMark)
  {
    /** The node with its mark replaced and every other field kept. */
    function SetMark(m: NodeMark): (r: FreeListNode)
      ensures r.mark == m
      ensures r.id == id && r.start == start && r.size == size
      ensures r.(mark := mark) == this
    {
      this.(mark := m)
    }
  }

  /** Total size of the blocks a node list owns. */
  function SumSizes(ns: seq<FreeListNode>): (r: nat)
  {
    if ns == [] then 0 else ns[0].size + SumSizes(ns[1..])
  }

  /** The ids of a node list, in list order. */
  function Ids(ns: seq<FreeListNode>): (r: seq<nat>)
    ensures |r| == |ns|
  {
    if ns == [] then [] else [ns[0].id] + Ids(ns[1..])
  }

  /** Ids strictly decrease from the head: the head is the most recent node. */
  ghost predicate IdsDescending(ns: seq<FreeListNode>)
  {
    forall i, j :: 0 <= i < j < |ns| ==> ns[i].id > ns[j].id
  }

  /** Every id in the list is below `bound`. */
  ghost predicate IdsBelow(ns: seq<FreeListNode>, bound: nat)
  {
    forall i :: 0 <= i < |ns| ==> ns[i].id < bound
  }

  /** What a sweep keeps: the Live nodes, in their order, demoted to PrevLive. */
  function Survivors(ns: seq<FreeListNode>): (r: seq<FreeListNode>)
    ensures |r| <= |ns|
    ensures forall k :: 0 <= k < |r| ==> r[k].mark == PrevLive
  {
    if ns == [] then []
    else if ns[0].mark == Live then [ns[0].SetMark(PrevLive)] + Survivors(ns[1..])
    else Survivors(ns[1..])
  }

  /** What a sweep releases: the PrevLive and FreshAlloc nodes, in their order. */
  function Released(ns: seq<FreeListNode>): (r: seq<FreeListNode>)
    ensures |r| <= |ns|
    ensures forall k :: 0 <= k < |r| ==> r[k].mark != Live
  {
    if ns == [] then []
    else if ns[0].mark == Live then Released(ns[1..])
    else [ns[0]] + Released(ns[1..])
  }

  /** One step of the sweep: the head is kept or released, then the tail is
      swept, after what was already kept in `kept` and released in `gone`. */
  lemma SweepStep(kept: seq<FreeListNode>, gone: seq<FreeListNode>, ns: seq<FreeListNode>)
    requires ns != []
    ensures ns[0].mark == Live ==>
      kept + Survivors(ns) == (kept + [ns[0].SetMark(PrevLive)]) + Survivors(ns[1..]) &&
      gone + Released(ns) == gone + Released(ns[1..])
    ensures ns[0].mark != Live ==>
      kept + Survivors(ns) == kept + Survivors(ns[1..]) &&
      gone + Released(ns) == (gone + [ns[0]]) + Released(ns[1..])
  {
  }

  /** A node is in the sweep's result exactly when it is marked PrevLive and
      the same node marked Live was in the list before. */
  lemma {:induction false} SurvivorsMembership(ns: seq<FreeListNode>, x: FreeListNode)
    ensures x in Survivors(ns) <==> x.mark == PrevLive && x.SetMark(Live) in ns
  {
    if ns != [] {
      SurvivorsMembership(ns[1..], x);
      assert ns == [ns[0]] + ns[1..];
    }
  }

  /** A node is released by a sweep exactly when it was in the list and was
      not marked Live. */
  lemma {:induction false} ReleasedMembership(ns: seq<FreeListNode>, x: FreeListNode)
    ensures x in Released(ns) <==> x in ns && x.mark != Live
  {
    if ns != [] {
      ReleasedMembership(ns[1..], x);
      assert ns == [ns[0]] + ns[1..];
    }
  }

  /** Every node is either kept or released, exactly once: no block leaks and
      none is released twice, and the kept and released sizes add up. */
  lemma {:induction false} SweepPartition(ns: seq<FreeListNode>)
    ensures multiset(Ids(Survivors(ns))) + multiset(Ids(Released(ns))) == multiset(Ids(ns))
    ensures SumSizes(Survivors(ns)) + SumSizes(Released(ns)) == SumSizes(ns)
  {
    if ns != [] {
      SweepPartition(ns[1..]);
      if ns[0].mark == Live {
        SumSizesAppend([ns[0].SetMark(PrevLive)], Survivors(ns[1..]));
        IdsAppend([ns[0].SetMark(PrevLive)], Survivors(ns[1..]));
      } else {
        SumSizesAppend([ns[0]], Released(ns[1..]));
        IdsAppend([ns[0]], Released(ns[1..]));
      }
    }
  }

  lemma {:induction false} SumSizesAppend(a: seq<FreeListNode>, b: seq<FreeListNode>)
    ensures SumSizes(a + b) == SumSizes(a) + SumSizes(b)
  {
    if a == [] {
      assert a + b == b;
    } else {
      SumSizesAppend(a[1..], b);
      assert (a + b)[1..] == a[1..] + b;
    }
  }

  lemma {:induction false} IdsAppend(a: seq<FreeListNode>, b: seq<FreeListNode>)
    ensures Ids(a + b) == Ids(a) + Ids(b)
  {
    if a == [] {
      assert a + b == b;
    } else {
      IdsAppend(a[1..], b);
      assert (a + b)[1..] == a[1..] + b;
    }
  }

  /** A sweep keeps no more bytes than the list held. */
  lemma SurvivorsSumBound(ns: seq<FreeListNode>)
    ensures SumSizes(Survivors(ns)) <= SumSizes(ns)
  {
    SweepPartition(ns);
  }

  /** A sweep invents no ids: a bound on the ids before holds after. */
  lemma {:induction false} SurvivorsIdsBelow(ns: seq<FreeListNode>, bound: nat)
    requires IdsBelow(ns, bound)
    ensures IdsBelow(Survivors(ns), bound)
  {
    if ns != [] {
      SurvivorsIdsBelow(ns[1..], bound);
    }
  }

  /** A sweep keeps the survivors' relative order: most recent first. */
  lemma {:induction false} SurvivorsDescending(ns: seq<FreeListNode>)
    requires IdsDescending(ns)
    ensures IdsDescending(Survivors(ns))
  {
    if ns != [] {
      SurvivorsDescending(ns[1..]);
      if ns[0].mark == Live {
        SurvivorsIdsBelow(ns[1..], ns[0].id);
      }
    }
  }

  /** In a list with distinct ids, the node at position i outlives a sweep
      exactly when it is marked Live: a Live node stays, demoted to PrevLive,
      and a PrevLive or FreshAlloc node's id disappears. */
  lemma SweepKeepsExactlyLive(ns: seq<FreeListNode>, i: nat)
    requires IdsDescending(ns)
    requires i < |ns|
    ensures ns[i].mark == Live ==> ns[i].SetMark(PrevLive) in Survivors(ns)
    ensures ns[i].mark != Live ==> ns[i].id !in Ids(Survivors(ns))
  {
    SurvivorsMembership(ns, ns[i].SetMark(PrevLive));
    if ns[i].mark != Live && ns[i].id in Ids(Survivors(ns)) {
      var k := IdsIndex(Survivors(ns), ns[i].id);
      var x := Survivors(ns)[k];
      SurvivorsMembership(ns, x);
      assert false;
    }
  }

  /** The position of an id in a list that holds it. */
  lemma {:induction false} IdsIndex(ns: seq<FreeListNode>, id: nat) returns (k: nat)
    requires id in Ids(ns)
    ensures k < |ns| && ns[k].id == id
  {
    if ns[0].id == id {
      k := 0;
    } else {
      var k' := IdsIndex(ns[1..], id);
      k := k' + 1;
    }
  }

  /** Surviving one sweep does not protect a node: unless the tracer marks it
      Live again, the next sweep releases it, so two sweeps in a row leave
      nothing. */
  lemma {:induction false} SecondSweepReclaimsAll(ns: seq<FreeListNode>)
    ensures Survivors(Survivors(ns)) == []
    ensures Released(Survivors(ns)) == Survivors(ns)
  {
    if ns != [] {
      SecondSweepReclaimsAll(ns[1..]);
    }
  }

  /** Without any Live mark, a sweep releases every node. Since `mark` does
      nothing, this is what a cycle does unless marks are set directly. */
  lemma {:induction false} NoLiveNoSurvivors(ns: seq<FreeListNode>)
    requires forall k :: 0 <= k < |ns| ==> ns[k].mark != Live
    ensures Survivors(ns) == []
    ensures Released(ns) == ns
  {
    if ns != [] {
      NoLiveNoSurvivors(ns[1..]);
      assert ns == [ns[0]] + ns[1..];
    }
  }

  /** A fresh id at the head keeps the list ordered and below the next id. */
  lemma PrependFresh(ns: seq<FreeListNode>, n: FreeListNode, nodeId: nat)
    requires IdsDescending(ns) && IdsBelow(ns, nodeId)
    requires n.id == nodeId
    ensures IdsDescending([n] + ns) && IdsBelow([n] + ns, nodeId + 1)
  {
  }

  /** The space's invariant over its fields: the byte count is the sum of the
      node sizes and fits the capacity, and ids decrease from the head and are
      all below the next id to be handed out. */
  ghost predicate ValidState(ns: seq<FreeListNode>, used: nat, capacity: nat, nextId: nat)
  {
    used == SumSizes(ns) && used <= capacity && IdsDescending(ns) && IdsBelow(ns, nextId)
  }

  /** A sweep re-establishes the invariant, with the byte count recomputed
      from the survivors. */
  lemma SurvivorsValid(ns: seq<FreeListNode>, capacity: nat, nextId: nat)
    requires ValidState(ns, SumSizes(ns), capacity, nextId)
    ensures ValidState(Survivors(ns), SumSizes(Survivors(ns)), capacity, nextId)
  {
    SurvivorsSumBound(ns);
    SurvivorsDescending(ns);
    SurvivorsIdsBelow(ns, nextId);
  }

  /** The pass of a sweep: pop each node from the front of `nodes`; a Live
      node is demoted to PrevLive, counted and appended to `kept`, any other
      node's block is released. */
  method SweepNodes(nodes: seq<FreeListNode>)
    returns (kept: seq<FreeListNode>, used: nat, ghost released: seq<FreeListNode>)
    ensures kept == Survivors(nodes)
    ensures used == SumSizes(kept)
    ensures released == Released(nodes)
  {
    var rest := nodes;
    kept, used, released := [], 0, [];
    while rest != []
      invariant Survivors(nodes) == kept + Survivors(rest)
      invariant Released(nodes) == released + Released(rest)
      invariant used == SumSizes(kept)
      decreases |rest|
    {
      var node := rest[0];
      SweepStep(kept, released, rest);
      rest := rest[1..];
      match node.mark {
        case Live =>
          node := node.SetMark(PrevLive);
          SumSizesAppend(kept, [node]);
          used := used + node.size;
          kept := kept + [node];
        case _ =>
          released := released + [node];
      }
    }
    assert kept + [] == kept && released + [] == released;
  }

  /** The large-object space. `size` is the byte capacity, fixed at
      construction; `usedBytes` is the bytes held by the listed nodes;
      `nodeId` is the id the next allocation hands out. */
  class FreeListSpace {
    var currentNodes: seq<FreeListNode>
    var nodeId: nat
    const size: nat
    var usedBytes: nat

    ghost predicate Valid()
      reads this
    {
      ValidState(currentNodes, usedBytes, size, nodeId)
    }

    constructor (size: nat)
      ensures Valid()
      ensures currentNodes == [] && nodeId == 0 && this.size == size && usedBytes == 0
    {
      currentNodes := [];
      nodeId := 0;
      this.size := size;
      usedBytes := 0;
    }

    /** The reachability callback; it changes nothing. */
    method Mark(obj: Address)
      ensures unchanged(this)
    {
    }

    /** Allocate `size` bytes aligned to `align`; `addr` is the block the
        system memory provider hands out when the capacity check passes. */
    method Alloc(size: nat, align: nat, addr: Address) returns (r: Option<Address>)
      requires Valid()
      requires usedBytes + size <= this.size ==> LayoutOk(size, align)
      modifies this
      ensures Valid()
      ensures old(usedBytes) + size > this.size ==>
        r == None && currentNodes == old(currentNodes) && nodeId == old(nodeId) &&
        usedBytes == old(usedBytes)
      ensures old(usedBytes) + size <= this.size ==>
        r == Some(addr) &&
        currentNodes == [FreeListNode(old(nodeId), addr, size, FreshAlloc)] + old(currentNodes) &&
        nodeId == old(nodeId) + 1 && usedBytes == old(usedBytes) + size
    {
      if usedBytes + size > this.size {
        r := None;
      } else {
        var node := FreeListNode(nodeId, addr, size, FreshAlloc);
        PrependFresh(currentNodes, node, nodeId);
        currentNodes := [node] + currentNodes;
        nodeId := nodeId + 1;
        usedBytes := usedBytes + size;
        r := Some(addr);
      }
    }

    /** Keep the Live nodes, demoted to PrevLive, release the others, and
        recount the bytes in use. `released` lists the nodes whose blocks are
        handed back to the memory provider, in the order they are released. */
    method Sweep() returns (ghost released: seq<FreeListNode>)
      requires Valid()
      modifies this
      ensures Valid()
      ensures currentNodes == Survivors(old(currentNodes))
      ensures usedBytes == SumSizes(currentNodes)
      ensures released == Released(old(currentNodes))
      ensures nodeId == old(nodeId)
    {
      var newNodes, newUsedBytes;
      newNodes, newUsedBytes, released := SweepNodes(currentNodes);
      SurvivorsValid(currentNodes, size, nodeId);
      currentNodes := newNodes;
      usedBytes := newUsedBytes;
    }

    /** Read access to the node list; under the invariant its sizes add up
        to the bytes in use and its ids run from most to least recent. */
    function CurrentNodes(): (r: seq<FreeListNode>)
      reads this
      requires Valid()
      ensures SumSizes(r) == usedBytes <= size
      ensures IdsDescending(r) && IdsBelow(r, nodeId)
    {
      currentNodes
    }

    /** Set the mark of the node at position `i`, through mutable access to
        the node list. Nothing else changes. */
    method SetNodeMark(i: nat, m: NodeMark)
      requires Valid()
      requires i < |currentNodes|
      modifies this
      ensures Valid()
      ensures currentNodes == old(currentNodes)[i := old(currentNodes)[i].SetMark(m)]
      ensures nodeId == old(nodeId) && usedBytes == old(usedBytes)
    {
      SetMarkKeepsSizesAndIds(currentNodes, i, m);
      currentNodes := currentNodes[i := currentNodes[i].SetMark(m)];
    }
  }

  /** Changing one node's mark changes neither the byte count nor the ids. */
  lemma {:induction false} SetMarkKeepsSizesAndIds(ns: seq<FreeListNode>, i: nat, m: NodeMark)
    requires i < |ns|
    ensures SumSizes(ns[i := ns[i].SetMark(m)]) == SumSizes(ns)
    ensures Ids(ns[i := ns[i].SetMark(m)]) == Ids(ns)
  {
    if i > 0 {
      SetMarkKeepsSizesAndIds(ns[1..], i - 1, m);
      assert ns[i := ns[i].SetMark(m)][1..] == ns[1..][i - 1 := ns[i].SetMark(m)];
    } else {
      assert ns[i := ns[i].SetMark(m)][1..] == ns[1..];
    }
  }

  /** Setting a node's mark twice leaves the list as setting it once; in
      particular marking a node Live twice in one cycle is the same as once. */
  lemma SetMarkTwiceIsOnce(ns: seq<FreeListNode>, i: nat, m: NodeMark)
    requires i < |ns|
    ensures var once := ns[i := ns[i].SetMark(m)];
      once[i := once[i].SetMark(m)] == once
  {
  }
}

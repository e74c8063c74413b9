# Large-object space of the Immix collector, in Dafny

This project models `FreeListSpace`, the large-object space of the immix-rust
garbage collector (`src/heap/freelist/mod.rs`). The space keeps a list of
nodes, one per large object. Each node holds an id, the start address and size
of its block, and a mark: `FreshAlloc`, `PrevLive` or `Live`. The space also
has a fixed byte capacity (`size`), a `used_bytes` counter and the next node
id (`node_id`).

- `alloc` checks the capacity. If the request fits, it puts a new `FreshAlloc`
  node at the front of the list, bumps `node_id` and adds the size to
  `used_bytes`.
- `sweep` empties the list front to back. It keeps the `Live` nodes in their
  order, demoted to `PrevLive`, releases the blocks of all other nodes, and
  recomputes `used_bytes` from the survivors.
- `mark` does nothing. A node becomes `Live` only through `set_mark` on a
  node reached by mutable access to the list. The model has the same split:
  `Mark` is a no-op and `SetNodeMark` sets the mark of the node at a given
  position.

`freelist.dfy` holds module `FreeList`:

- `FreeListNode` and `NodeMark` are datatypes. A node is a `Box` owned only by
  the list, so changing its mark in place is the same as replacing its value.
- `FreeListSpace` is a class whose fields are updated in place by `Alloc`,
  `Sweep` and `SetNodeMark`.
- `Valid()` is the space's invariant: `usedBytes` is the sum of the node
  sizes and fits the capacity, ids strictly decrease from the head, and every
  id is below `nodeId`.
- `SweepNodes` is the loop at the heart of `sweep`. Like the block at
  src/heap/freelist/mod.rs:56-82, it builds the new list and byte count
  before `Sweep` stores them in the fields.
- `Survivors` and `Released` are functions that specify what a sweep keeps
  and what it frees. The lemmas next to them prove the sweep properties.

`scenario.dfy` is a client. Its method `TwoCycles` performs two collection
cycles on a 1000-byte space, and the assertion after each step is proved from
the contracts alone.

`mark` (src/heap/freelist/mod.rs:29) is empty, so nothing in the space ever
sets a node `Live`. `NoLiveNoSurvivors` states the consequence: unless a mark
is set directly through the node list, a sweep frees every node.

## Model

| member | source | states |
|---|---|---|
| FreeList.FreeListNode.SetMark | src/heap/freelist/mod.rs:104-106 | the new node has the requested mark and the same id, start and size; restoring the old mark gives back the original node |
| FreeList.SetMarkKeepsSizesAndIds | src/heap/freelist/mod.rs:104-106 | changing one node's mark leaves the list's total size and its ids unchanged |
| FreeList.SetMarkTwiceIsOnce | src/heap/freelist/mod.rs:104-106 | setting the same mark twice on a node, for example Live, leaves the list as setting it once |
| FreeList.Survivors | src/heap/freelist/mod.rs:61-68 | what a sweep keeps is no longer than the list, and every kept node is marked PrevLive |
| FreeList.Released | src/heap/freelist/mod.rs:69-77 | what a sweep frees is no longer than the list, and no freed node was Live |
| FreeList.ReleasedMembership | src/heap/freelist/mod.rs:69-77 | a node is freed by a sweep if and only if it was in the list and was not marked Live |
| FreeList.SurvivorsMembership | src/heap/freelist/mod.rs:61-79 | a node is kept by a sweep if and only if it is marked PrevLive and the same node marked Live was in the list before |
| FreeList.SweepKeepsExactlyLive | src/heap/freelist/mod.rs:63-77 | when ids are distinct, a Live node survives as PrevLive, and the id of a PrevLive or FreshAlloc node is gone after the sweep |
| FreeList.SweepPartition | src/heap/freelist/mod.rs:56-85 | each node is kept or freed exactly once, counted as a multiset of ids, so no block leaks and none is freed twice; kept bytes plus freed bytes equal the old total |
| FreeList.SurvivorsSumBound | src/heap/freelist/mod.rs:59-66 | the bytes a sweep keeps are at most the bytes held before it, so `used_bytes <= size` still holds |
| FreeList.SurvivorsIdsBelow | src/heap/freelist/mod.rs:61-84 | a sweep creates no ids: any upper bound on the ids before the sweep still holds after it |
| FreeList.SurvivorsDescending | src/heap/freelist/mod.rs:61-84 | survivors keep their relative order: strictly decreasing ids stay strictly decreasing |
| FreeList.SecondSweepReclaimsAll | src/heap/freelist/mod.rs:63-77 | surviving one sweep gives no protection: a second sweep with no new Live marks keeps nothing and frees every earlier survivor |
| FreeList.NoLiveNoSurvivors | src/heap/freelist/mod.rs:61-79 | because `mark` (line 29) does nothing, a list with no Live node loses every node in a sweep, and all of them are freed |
| FreeList.SurvivorsValid | src/heap/freelist/mod.rs:59-85 | if the list satisfies the space invariant before a sweep, the survivors with their recomputed byte count satisfy it after the sweep, with the same capacity and the same `node_id` |
| FreeList.SweepNodes | src/heap/freelist/mod.rs:56-82 | the sweep loop pops every node from the front: the list it builds is exactly what `Survivors` says, its byte count is that list's total size, and the nodes it frees are exactly what `Released` says, in list order |
| FreeList.PrependFresh | src/heap/freelist/mod.rs:42-48 | putting a node with id `node_id` at the front keeps ids strictly decreasing and all below `node_id + 1`; the head has the largest id |
| FreeList.FreeListSpace.constructor | src/heap/freelist/mod.rs:20-27 | a new space has an empty list, `node_id == 0`, `used_bytes == 0`, the given capacity, and satisfies the invariant |
| FreeList.FreeListSpace.Mark | src/heap/freelist/mod.rs:29 | marking an object changes no field of the space |
| FreeList.FreeListSpace.Alloc | src/heap/freelist/mod.rs:31-53 | if `used_bytes` plus the requested size exceeds the capacity: returns None and changes no field; otherwise returns the block's address, puts exactly one node in front of the unchanged old list (id = old `node_id`, the requested size, the address, FreshAlloc), increments `node_id` and adds `size` to `used_bytes`; keeps the invariant |
| FreeList.FreeListSpace.Sweep | src/heap/freelist/mod.rs:55-86 | the new list is exactly the old Live nodes in their original order, marked PrevLive; the freed nodes are exactly the old PrevLive and FreshAlloc nodes; `used_bytes` is the survivors' total size; `node_id` and the capacity do not change; keeps the invariant |
| FreeList.FreeListSpace.CurrentNodes | src/heap/freelist/mod.rs:88-90 | the node list a reader sees adds up to `used_bytes` (at most the capacity), and its ids run strictly downward from the most recent, all below `node_id` |
| FreeList.FreeListSpace.SetNodeMark | src/heap/freelist/mod.rs:91-93 | setting the mark of the node at position i through mutable access changes only that node's mark; `node_id` and `used_bytes` stay the same and the invariant holds |

## Left out

- The system memory provider (`alloc::alloc`, `alloc::dealloc`, src/heap/freelist/mod.rs:35-40, 70-75) is not modelled. `Alloc` gets the returned address as a parameter. `Sweep` reports the nodes whose blocks it frees as a ghost output. Memory contents are not modelled.
- Alloc: the `Layout::from_size_align(...).expect(...)` panic and the rule that `alloc::alloc` must not get a zero-size layout become a precondition. It applies only when the capacity check passes, because only then does the source build a layout. The model does not check for a null pointer from the provider, and neither does the source.
- Alloc: `used_bytes + size` and `node_id + 1` are `usize` in the source and could wrap. The model uses unbounded integers and does not model the wrap-around.
- Sweep: the source frees each block with `Layout::from_size_align_unchecked(node.size, node.size)` (src/heap/freelist/mod.rs:73), so the alignment it passes is the block's size. When the size is not a power of two (a 400-byte block, say) that layout breaks the call's safety requirement, which is undefined behaviour. When the size differs from the alignment given to `alloc`, the layout also differs from the one the block was allocated with. The model does not capture either: it records which nodes are freed, not the layout used to free them.
- SetNodeMark: mutable access through `current_nodes_mut` (src/heap/freelist/mod.rs:91-93) allows any change to the list. The model covers one use of it, setting the mark of one node, because `set_mark` is the only way a node can become `Live` (`mark` at line 29 is empty). Reordering, removing or replacing nodes through it would break `Valid()` and is not modelled.
- `alloc_large` (src/heap/freelist/mod.rs:117-142) is not modelled. It retries without bound and depends on a lock, the mutator's yield point and the global collection trigger, none of which belong to this sequential model.
- The `Display` implementations (src/heap/freelist/mod.rs:144-168) are not modelled; they only format diagnostics.
- `src/mark.rs` is a benchmark driver and is not part of this model.
- Thread safety (`unsafe impl Sync`, the shared `Arc<RwLock<…>>`) is not modelled.

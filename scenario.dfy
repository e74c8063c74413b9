/** A client of the large-object space: two cycles of allocation, marking and
    sweeping on a space of 1000 bytes, following only the contracts. */
module FreeListScenario {
  import opened FreeList

  method TwoCycles(a: Address, b: Address, c: Address)
  {
    var space := new FreeListSpace(1000);
    var r := space.Alloc(400, 8, a);
    assert r == Some(a) && space.usedBytes == 400;
    r := space.Alloc(400, 8, b);
    assert r == Some(b) && space.usedBytes == 800;
    r := space.Alloc(400, 8, c);
    assert r == None && space.usedBytes == 800;
    assert space.currentNodes == [FreeListNode(1, b, 400, FreshAlloc), FreeListNode(0, a, 400, FreshAlloc)];

    // The tracer proves the first object reachable; mark() alone would not.
    space.Mark(a);
    space.SetNodeMark(1, Live);
    var gone := space.Sweep();
    assert space.currentNodes == [FreeListNode(0, a, 400, PrevLive)];
    assert gone == [FreeListNode(1, b, 400, FreshAlloc)];
    assert space.usedBytes == 400;

    r := space.Alloc(400, 8, c);
    assert r == Some(c) && space.usedBytes == 800;
    assert space.currentNodes[0] == FreeListNode(2, c, 400, FreshAlloc);

    // Not marked again, the survivor of the first cycle goes too.
    gone := space.Sweep();
    assert space.currentNodes == [] && space.usedBytes == 0;
  }
}

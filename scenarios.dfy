/** The outcome of short request sequences on the allocator object: coalescing of
    two released neighbours, growth of an empty heap, and first-fit reuse of a
    released block. */
module Scenarios {
  import opened Blocks
  import opened Heap

  /** _malloc(10), _malloc(20), _free of the first, then of the second: the first
      release finds no free neighbour and leaves two blocks; the second merges both
      into one free block of 30 bytes plus the absorbed header. */
  method CoalesceTwo(H: nat, start: int) returns (p1: Option<int>, p2: Option<int>, middle: seq<Block>, last: seq<Block>)
    requires H > 0
    ensures p1 == Some(start + H) && p2 == Some(start + H + 10 + H)
    ensures middle == [Block(start, 10, true), Block(start + H + 10, 20, false)]
    ensures last == [Block(start, 30 + H, true)]
  {
    var a := new Allocator(H, start);
    p1 := a.Malloc(10, true);
    assert a.blocks == [Block(start, 10, false)];
    p2 := a.Malloc(20, true);
    var two := a.blocks;
    assert two == [Block(start, 10, false), Block(start + H + 10, 20, false)];
    ReleaseFirstOfTwo(two[0], two[1], H);
    a.Free(p1);
    assert two[0].addr + H == p1.value;
    middle := a.blocks;
    ReleaseSecondOfTwo(middle[0], middle[1], H);
    a.Free(p2);
    assert middle[1].addr + H == p2.value;
    last := a.blocks;
  }

  /** On an empty heap, _malloc(size) grows the heap by exactly size + H and hands out
      the address H past the old break; after _free of that handle, a second
      _malloc(size) reuses the same block even when the heap cannot grow. */
  method ReuseAfterFree(H: nat, start: int, size: nat) returns (p: Option<int>, grown: int, q: Option<int>)
    requires H > 0 && size > 0
    ensures p == Some(start + H) && grown == start + size + H
    ensures q == p
  {
    var a := new Allocator(H, start);
    p := a.Malloc(size, true);
    grown := a.brk;
    var one := a.blocks;
    assert one == [Block(start, size, false)];
    ReleaseOnly(one[0], H);
    a.Free(p);
    assert one[0].addr + H == p.value;
    assert a.blocks == [Block(start, size, true)];
    assert FirstFit(a.blocks, size) == Some(0);
    q := a.Malloc(size, false);
  }
}

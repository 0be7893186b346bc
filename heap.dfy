/** The allocator's process-wide state as one object: the block list in address
    order (the chain that starts at data_head), the heap start and the current break.
    Each method performs the source's steps on that state and is proved against the
    functions of module Blocks. The heap-extension call sbrk is not modelled; whether
    it succeeds is a parameter, and on success it returns the current break. */
module Heap {
  import opened Blocks

  class Allocator {
    /** sizeof(block_data): the header placed before every block's usable bytes. */
    const H: nat
    /** Address of the first header: the break when the heap was first extended. */
    const start: int
    var blocks: seq<Block>
    var brk: int

    /** The blocks tile [start, brk), and no two neighbours are both free. */
    ghost predicate Valid()
      reads this
    {
      H > 0 && Tiled(blocks, start, brk, H) && NoAdjacentFree(blocks)
    }

    /** The allocator before its first request: data_head is NULL. */
    constructor (headerSize: nat, heapStart: int)
      requires headerSize > 0
      ensures Valid()
      ensures H == headerSize && start == heapStart
      ensures blocks == [] && brk == heapStart
    {
      H := headerSize;
      start := heapStart;
      blocks := [];
      brk := heapStart;
    }

    /** find_block: scan from the head for the first free block of at least size
        bytes; split it or hand it out whole and return its handle. */
    method FindBlock(size: nat) returns (p: Option<int>)
      requires Valid()
      modifies this
      ensures Valid() && brk == old(brk)
      ensures match FirstFit(old(blocks), size)
        case None => p == None && blocks == old(blocks)
        case Some(i) => p == Some(old(blocks)[i].addr + H) && blocks == Take(old(blocks), i, size, H)
    {
      var i := 0;
      while i < |blocks|
        invariant i <= |blocks| && blocks == old(blocks)
        invariant forall j :: 0 <= j < i ==> !Fits(blocks[j], size)
      {
        var b := blocks[i];
        if b.free {
          if size + H < b.size {
            FirstFitIs(blocks, size, i);
            var split := blocks[..i] + [Block(b.addr, size, false), Block(b.addr + H + size, b.size - size - H, true)] + blocks[i + 1..];
            assert split == Take(blocks, i, size, H);
            TakeTiled(blocks, i, size, H, start, brk);
            TakeNoAdjacentFree(blocks, i, size, H);
            blocks := split;
            return Some(b.addr + H);
          } else if size <= b.size {
            FirstFitIs(blocks, size, i);
            TakeTiled(blocks, i, size, H, start, brk);
            TakeNoAdjacentFree(blocks, i, size, H);
            blocks := blocks[i := b.(free := false)];
            return Some(b.addr + H);
          }
        }
        i := i + 1;
      }
      return None;
    }

    /** allocate_memory: extend the heap by size + H bytes and append an allocated
        block of exactly size bytes at the old break as the new tail. */
    method AllocateMemory(size: nat, sbrkSucceeds: bool) returns (p: Option<int>)
      requires Valid()
      modifies this
      ensures Valid()
      ensures !sbrkSucceeds ==> p == None && blocks == old(blocks) && brk == old(brk)
      ensures sbrkSucceeds ==>
        p == Some(old(brk) + H) &&
        blocks == old(blocks) + [Block(old(brk), size, false)] &&
        brk == old(brk) + size + H
    {
      if !sbrkSucceeds {
        return None;
      }
      var prevBrk := brk;
      brk := brk + size + H;
      var data := Block(prevBrk, size, false);
      GrowTiled(blocks, size, H, start, prevBrk);
      GrowNoAdjacentFree(blocks, data);
      blocks := blocks + [data];
      return Some(prevBrk + H);
    }

    /** _malloc: no allocation for size 0; otherwise first fit, else grow the heap. */
    method Malloc(size: nat, sbrkSucceeds: bool) returns (p: Option<int>)
      requires Valid()
      modifies this
      ensures Valid()
      ensures size == 0 ==> p == None && blocks == old(blocks) && brk == old(brk)
      ensures size > 0 && FirstFit(old(blocks), size).Some? ==>
        var i := FirstFit(old(blocks), size).value;
        p == Some(old(blocks)[i].addr + H) && blocks == Take(old(blocks), i, size, H) && brk == old(brk)
      ensures size > 0 && FirstFit(old(blocks), size).None? ==>
        if sbrkSucceeds then
          p == Some(old(brk) + H) && blocks == old(blocks) + [Block(old(brk), size, false)] &&
          brk == old(brk) + size + H
        else
          p == None && blocks == old(blocks) && brk == old(brk)
      ensures p.Some? ==>
        exists k :: 0 <= k < |blocks| && blocks[k].addr + H == p.value && !blocks[k].free && size <= blocks[k].size
    {
      if size == 0 {
        return None;
      }
      p := FindBlock(size);
      if p.Some? {
        ghost var i := FirstFit(old(blocks), size).value;
        assert blocks[i].addr + H == p.value;
        return;
      }
      p := AllocateMemory(size, sbrkSucceeds);
      if p.Some? {
        assert blocks[|blocks| - 1].addr + H == p.value;
      }
    }

    /** _free: nothing for NULL; otherwise recover the header from the handle, mark
        it free, then merge it with its free neighbours on both sides. */
    method Free(p: Option<int>)
      requires Valid()
      requires p.Some? ==> IsHandle(blocks, p.value, H)
      modifies this
      ensures Valid() && brk == old(brk)
      ensures p == None ==> blocks == old(blocks)
      ensures p.Some? ==> forall k :: 0 <= k < |old(blocks)| && old(blocks)[k].addr + H == p.value ==>
        blocks == Release(old(blocks), k, H)
    {
      if p == None {
        return;
      }
      var data :| 0 <= data < |blocks| && blocks[data].addr + H == p.value && !blocks[data].free;
      HandleUnique(blocks, H, data);
      ReleaseAt(data);
    }

    /** The body of _free once the header is found: mark block data free, then run
        the backward and the forward merge loops. */
    method ReleaseAt(data: nat)
      requires Valid() && data < |blocks|
      modifies this`blocks
      ensures Valid() && blocks == Release(old(blocks), data, H)
    {
      ReleaseKeepsValid(blocks, data, H, start, brk);
      ghost var m := MarkFree(blocks, data);
      MarkFreeIsMerging(blocks, data, H);
      blocks := blocks[data := blocks[data].(free := true)];
      var lo := MergeBackward(data, m);
      MergeForward(lo, m, data);
    }

    /** The backward merge loop of _free: while the current block has a free
        predecessor, the predecessor absorbs it and becomes the current block. */
    method MergeBackward(k: nat, ghost m: seq<Block>) returns (data: nat)
      requires k < |m| && blocks == Merging(m, k, k, H)
      modifies this`blocks
      ensures data == RunStart(m, k) && blocks == Merging(m, data, k, H)
    {
      data := k;
      while data > 0 && blocks[data - 1].free
        invariant data <= k && blocks == Merging(m, data, k, H)
        invariant RunStart(m, data) == RunStart(m, k)
      {
        MergingNeighbours(m, data, k, H, blocks);
        AbsorbIntoPrev(m, data, k, H, blocks);
        blocks := blocks[..data - 1] + [blocks[data - 1].(size := blocks[data - 1].size + H + blocks[data].size)] + blocks[data + 1..];
        data := data - 1;
      }
      MergingNeighbours(m, data, k, H, blocks);
    }

    /** The forward merge loop of _free: while the current block has a free
        successor, the current block absorbs it. */
    method MergeForward(data: nat, ghost m: seq<Block>, ghost k: nat)
      requires k < |m| && data == RunStart(m, k) && blocks == Merging(m, data, k, H)
      modifies this`blocks
      ensures blocks == Merging(m, data, RunEnd(m, k), H)
    {
      ghost var hi := k;
      while data + 1 < |blocks| && blocks[data + 1].free
        invariant k <= hi < |m| && blocks == Merging(m, data, hi, H)
        invariant RunEnd(m, hi) == RunEnd(m, k)
      {
        MergingNeighbours(m, data, hi, H, blocks);
        AbsorbNext(m, data, hi, H, blocks);
        blocks := blocks[..data] + [blocks[data].(size := blocks[data].size + H + blocks[data + 1].size)] + blocks[data + 2..];
        hi := hi + 1;
      }
      MergingNeighbours(m, data, hi, H, blocks);
    }
  }
}

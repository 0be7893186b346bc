/** The block list of the first-fit allocator, as a value: the headers in address
    order, each with its start address, its usable size and its free flag. The link
    fields of a header are implicit here: the next block is the one at the next index,
    the previous block the one at the index before. The functions below say what
    find_block, allocate_memory and _free do to this list; module Heap runs those
    steps on an object. */
module Blocks {

  datatype Option<T> = None | Some(value: T)

  /** One header: its address, the usable bytes after it, and whether it is free. */
  datatype Block = Block(addr: int, size: nat, free: bool)

  /** First address past the block's usable bytes; H is the header size. */
  function End(b: Block, H: nat): int
  {
    b.addr + H + b.size
  }

  /** Bytes taken by a run of blocks: one header plus the usable bytes per block. */
  function Span(bs: seq<Block>, H: nat): (n: nat)
    ensures bs != [] ==> n >= H + bs[0].size
  {
    if bs == [] then 0 else H + bs[0].size + Span(bs[1..], H)
  }

  /** Block i starts where block i - 1 ends. */
  ghost predicate Adjoins(bs: seq<Block>, i: nat, H: nat)
    requires 0 < i < |bs|
  {
    bs[i].addr == End(bs[i - 1], H)
  }

  /** Blocks i - 1 and i are not both free. */
  ghost predicate Separated(bs: seq<Block>, i: nat)
    requires 0 < i < |bs|
  {
    !(bs[i - 1].free && bs[i].free)
  }

  /** Every block starts where the one before it ends. */
  ghost predicate Contiguous(bs: seq<Block>, H: nat)
  {
    forall i :: 0 < i < |bs| ==> Adjoins(bs, i, H)
  }

  /** The blocks tile the heap [start, brk) exactly, in address order. */
  ghost predicate Tiled(bs: seq<Block>, start: int, brk: int, H: nat)
  {
    Contiguous(bs, H) &&
    if bs == [] then brk == start
    else bs[0].addr == start && End(bs[|bs| - 1], H) == brk
  }

  /** No two neighbouring blocks are both free. */
  ghost predicate NoAdjacentFree(bs: seq<Block>)
  {
    forall i :: 0 < i < |bs| ==> Separated(bs, i)
  }

  /** p is the handle of an allocated block: its header address plus H. */
  ghost predicate IsHandle(bs: seq<Block>, p: int, H: nat)
  {
    exists k :: 0 <= k < |bs| && bs[k].addr + H == p && !bs[k].free
  }

  // ---------------------------------------------------------------------------
  // Layout lemmas

  lemma {:induction false} SpanConcat(a: seq<Block>, b: seq<Block>, H: nat)
    ensures Span(a + b, H) == Span(a, H) + Span(b, H)
  {
    if a != [] {
      assert (a + b)[1..] == a[1..] + b;
      SpanConcat(a[1..], b, H);
    } else {
      assert a + b == b;
    }
  }

  lemma {:induction false} SpanSameSizes(a: seq<Block>, b: seq<Block>, H: nat)
    requires |a| == |b| && forall k :: 0 <= k < |a| ==> a[k].size == b[k].size
    ensures Span(a, H) == Span(b, H)
  {
    if a != [] {
      SpanSameSizes(a[1..], b[1..], H);
    }
  }

  /** A slice of a contiguous list is contiguous. */
  lemma ContiguousSlice(m: seq<Block>, lo: nat, hi: nat, H: nat)
    requires lo <= hi <= |m| && Contiguous(m, H)
    ensures Contiguous(m[lo..hi], H)
  {
    var run := m[lo..hi];
    forall k | 0 < k < |run| ensures Adjoins(run, k, H) {
      assert Adjoins(m, lo + k, H);
      assert run[k] == m[lo + k] && run[k - 1] == m[lo + k - 1];
    }
  }

  /** In a contiguous run, the last block ends Span bytes after the first starts. */
  lemma {:induction false} ContiguousEnd(bs: seq<Block>, H: nat)
    requires bs != [] && Contiguous(bs, H)
    ensures End(bs[|bs| - 1], H) == bs[0].addr + Span(bs, H)
  {
    if |bs| > 1 {
      assert bs[1..][|bs[1..]| - 1] == bs[|bs| - 1];
      ContiguousSlice(bs, 1, |bs|, H);
      assert bs[1..] == bs[1..|bs|];
      ContiguousEnd(bs[1..], H);
      assert Adjoins(bs, 1, H);
    }
  }

  /** The heap break sits exactly Span bytes past the heap start. */
  lemma TiledSpan(bs: seq<Block>, start: int, brk: int, H: nat)
    requires Tiled(bs, start, brk, H)
    ensures brk == start + Span(bs, H)
  {
    if bs != [] {
      ContiguousEnd(bs, H);
    }
  }

  /** Blocks of a tiled list never overlap: a block ends no later than any later block starts. */
  lemma {:induction false} ContiguousOrdered(bs: seq<Block>, H: nat, i: nat, j: nat)
    requires Contiguous(bs, H) && i < j < |bs|
    ensures End(bs[i], H) <= bs[j].addr
    decreases j - i
  {
    assert Adjoins(bs, i + 1, H);
    if i + 1 < j {
      ContiguousOrdered(bs, H, i + 1, j);
    }
  }

  /** No two blocks share a header address. */
  ghost predicate Distinct(bs: seq<Block>)
  {
    forall i, j :: 0 <= i < j < |bs| ==> bs[i].addr != bs[j].addr
  }

  /** With H > 0 each address is the header of at most one block. */
  lemma ContiguousDistinct(bs: seq<Block>, H: nat)
    requires H > 0 && Contiguous(bs, H)
    ensures Distinct(bs)
  {
    forall i, j | 0 <= i < j < |bs| ensures bs[i].addr != bs[j].addr {
      ContiguousOrdered(bs, H, i, j);
    }
  }

  // ---------------------------------------------------------------------------
  // find_block: first fit, then split or use as-is

  /** A block can serve a request of size bytes. */
  predicate Fits(b: Block, size: nat)
  {
    b.free && size <= b.size
  }

  /** Index of the first block in list order that can serve the request, if any. */
  function FirstFit(bs: seq<Block>, size: nat): (r: Option<nat>)
    ensures r.Some? ==> r.value < |bs| && Fits(bs[r.value], size)
    ensures r.Some? ==> forall j :: 0 <= j < r.value ==> !Fits(bs[j], size)
    ensures r.None? <==> forall j :: 0 <= j < |bs| ==> !Fits(bs[j], size)
  {
    if bs == [] then None
    else if Fits(bs[0], size) then Some(0)
    else match FirstFit(bs[1..], size)
      case None => None
      case Some(k) => Some(k + 1)
  }

  /** First fit is the one index that fits with no fitting block before it. */
  lemma FirstFitIs(bs: seq<Block>, size: nat, i: nat)
    requires i < |bs| && Fits(bs[i], size)
    requires forall j :: 0 <= j < i ==> !Fits(bs[j], size)
    ensures FirstFit(bs, size) == Some(i)
  {
  }

  /** The list after block i serves a request of size bytes: split when the block has
      room for a further header and at least one byte, else handed out whole. */
  function Take(bs: seq<Block>, i: nat, size: nat, H: nat): (r: seq<Block>)
    requires i < |bs| && size <= bs[i].size
    ensures |r| == |bs| + 1 <==> size + H < bs[i].size
    ensures i < |r| && r[i].addr == bs[i].addr && !r[i].free
    ensures size <= r[i].size <= size + H
  {
    var b := bs[i];
    if size + H < b.size then
      bs[..i] + [Block(b.addr, size, false), Block(b.addr + H + size, b.size - size - H, true)] + bs[i + 1..]
    else
      bs[i := b.(free := false)]
  }

  /** Split branch: the chosen block shrinks to exactly size bytes, a free block with the
      remainder follows it at addr + H + size, and every other block is kept in place. */
  lemma TakeSplit(bs: seq<Block>, i: nat, size: nat, H: nat)
    requires i < |bs| && size + H < bs[i].size
    ensures var r := Take(bs, i, size, H);
      |r| == |bs| + 1 &&
      r[..i] == bs[..i] && r[i + 2..] == bs[i + 1..] &&
      r[i] == Block(bs[i].addr, size, false) &&
      r[i + 1] == Block(bs[i].addr + H + size, bs[i].size - size - H, true)
  {
  }

  /** Use-as-is branch: only the free flag of the chosen block changes. */
  lemma TakeWhole(bs: seq<Block>, i: nat, size: nat, H: nat)
    requires i < |bs| && size <= bs[i].size <= size + H
    ensures Take(bs, i, size, H) == bs[i := Block(bs[i].addr, bs[i].size, false)]
  {
  }

  /** Handing out a block moves no byte: the split remainder takes over the header
      and bytes the chosen block gives up. */
  lemma TakeSpan(bs: seq<Block>, i: nat, size: nat, H: nat)
    requires i < |bs| && size <= bs[i].size
    ensures Span(Take(bs, i, size, H), H) == Span(bs, H)
  {
    var b := bs[i];
    assert bs == bs[..i] + [b] + bs[i + 1..];
    SpanConcat(bs[..i] + [b], bs[i + 1..], H);
    SpanConcat(bs[..i], [b], H);
    assert Span([b], H) == H + b.size + Span([], H);
    var r := Take(bs, i, size, H);
    if size + H < b.size {
      var pair := [Block(b.addr, size, false), Block(b.addr + H + size, b.size - size - H, true)];
      SpanConcat(bs[..i] + pair, bs[i + 1..], H);
      SpanConcat(bs[..i], pair, H);
      assert pair[1..] == [pair[1]];
      assert Span([pair[1]], H) == H + (b.size - size - H) + Span([], H);
    } else {
      assert r == bs[..i] + [b.(free := false)] + bs[i + 1..];
      SpanConcat(bs[..i] + [b.(free := false)], bs[i + 1..], H);
      SpanConcat(bs[..i], [b.(free := false)], H);
      assert Span([b.(free := false)], H) == H + b.size + Span([], H);
    }
  }

  /** Handing out a block keeps the tiling of the heap, and so the total span. */
  lemma TakeTiled(bs: seq<Block>, i: nat, size: nat, H: nat, start: int, brk: int)
    requires i < |bs| && size <= bs[i].size && Tiled(bs, start, brk, H)
    ensures Tiled(Take(bs, i, size, H), start, brk, H)
  {
    var r := Take(bs, i, size, H);
    if size + H < bs[i].size {
      TakeSplit(bs, i, size, H);
      forall k | 0 < k < |r| ensures Adjoins(r, k, H) {
        if k < i {
          assert Adjoins(bs, k, H);
        } else if k == i {
          assert Adjoins(bs, k, H);
          assert r[k - 1] == bs[k - 1];
        } else if k == i + 1 {
        } else if k == i + 2 {
          assert Adjoins(bs, i + 1, H);
          assert r[k] == bs[i + 1];
        } else {
          assert Adjoins(bs, k - 1, H);
          assert r[k] == bs[k - 1] && r[k - 1] == bs[k - 2];
        }
      }
      if i + 1 == |bs| {
        assert r[|r| - 1] == r[i + 1];
      } else {
        assert r[|r| - 1] == bs[|bs| - 1];
      }
    } else {
      forall k | 0 < k < |r| ensures Adjoins(r, k, H) {
        assert Adjoins(bs, k, H);
      }
    }
  }

  /** Handing out a block never leaves two free neighbours: the split remainder follows
      an allocated block and precedes what followed a free block. */
  lemma TakeNoAdjacentFree(bs: seq<Block>, i: nat, size: nat, H: nat)
    requires i < |bs| && Fits(bs[i], size) && NoAdjacentFree(bs)
    ensures NoAdjacentFree(Take(bs, i, size, H))
  {
    var r := Take(bs, i, size, H);
    if size + H < bs[i].size {
      TakeSplit(bs, i, size, H);
      forall k | 0 < k < |r| ensures Separated(r, k) {
        if k < i {
          assert Separated(bs, k);
        } else if k <= i + 1 {
        } else if k == i + 2 {
          assert Separated(bs, i + 1);
          assert r[k] == bs[i + 1];
        } else {
          assert Separated(bs, k - 1);
          assert r[k] == bs[k - 1] && r[k - 1] == bs[k - 2];
        }
      }
    } else {
      forall k | 0 < k < |r| ensures Separated(r, k) {
        assert Separated(bs, k);
      }
    }
  }

  // ---------------------------------------------------------------------------
  // allocate_memory: a new allocated block at the old break

  /** Appending the block sbrk provided keeps the tiling, with the break moved by size + H. */
  lemma GrowTiled(bs: seq<Block>, size: nat, H: nat, start: int, brk: int)
    requires Tiled(bs, start, brk, H)
    ensures Tiled(bs + [Block(brk, size, false)], start, brk + size + H, H)
  {
    var r := bs + [Block(brk, size, false)];
    forall k | 0 < k < |r| ensures Adjoins(r, k, H) {
      if k < |bs| {
        assert Adjoins(bs, k, H);
      }
    }
  }

  /** The appended block is allocated, so no free pair appears. */
  lemma GrowNoAdjacentFree(bs: seq<Block>, b: Block)
    requires NoAdjacentFree(bs) && !b.free
    ensures NoAdjacentFree(bs + [b])
  {
    var r := bs + [b];
    forall k | 0 < k < |r| ensures Separated(r, k) {
      if k < |bs| {
        assert Separated(bs, k);
      }
    }
  }

  // ---------------------------------------------------------------------------
  // _free: mark free, then merge with the free run on both sides

  /** The list once block i's free flag is set: _free's first step. */
  function MarkFree(bs: seq<Block>, i: nat): (r: seq<Block>)
    requires i < |bs|
    ensures |r| == |bs| && r[i].free && r[i].addr == bs[i].addr && r[i].size == bs[i].size
    ensures forall k :: 0 <= k < |bs| && k != i ==> r[k] == bs[k]
  {
    bs[i := bs[i].(free := true)]
  }

  /** Start of the run of free blocks that ends at i: the backward merge stops there. */
  function RunStart(bs: seq<Block>, i: nat): (lo: nat)
    requires i < |bs|
    ensures lo <= i && (lo == 0 || !bs[lo - 1].free)
    ensures forall j :: lo <= j < i ==> bs[j].free
    decreases i
  {
    if i > 0 && bs[i - 1].free then RunStart(bs, i - 1) else i
  }

  /** End of the run of free blocks that starts at i: the forward merge stops there. */
  function RunEnd(bs: seq<Block>, i: nat): (hi: nat)
    requires i < |bs|
    ensures i <= hi < |bs| && (hi == |bs| - 1 || !bs[hi + 1].free)
    ensures forall j :: i < j <= hi ==> bs[j].free
    decreases |bs| - i
  {
    if i + 1 < |bs| && bs[i + 1].free then RunEnd(bs, i + 1) else i
  }

  /** The list with the blocks lo..hi of m merged into one free block at m[lo]'s
      address, whose size is their sizes plus H per absorbed header. */
  function Merging(m: seq<Block>, lo: nat, hi: nat, H: nat): (r: seq<Block>)
    requires lo <= hi < |m|
    ensures |r| == |m| - (hi - lo)
  {
    m[..lo] + [Block(m[lo].addr, Span(m[lo..hi + 1], H) - H, true)] + m[hi + 1..]
  }

  /** The list after block i is released: marked free, then the maximal free run
      around it is merged into one block. */
  function Release(bs: seq<Block>, i: nat, H: nat): (r: seq<Block>)
    requires i < |bs|
    ensures 0 < |r| <= |bs|
  {
    var m := MarkFree(bs, i);
    Merging(m, RunStart(m, i), RunEnd(m, i), H)
  }

  /** Right after the mark, the released block is a merged run of one. */
  lemma MarkFreeIsMerging(bs: seq<Block>, i: nat, H: nat)
    requires i < |bs|
    ensures MarkFree(bs, i) == Merging(MarkFree(bs, i), i, i, H)
  {
    var m := MarkFree(bs, i);
    assert m[i..i + 1] == [m[i]];
    assert Span([m[i]], H) == H + m[i].size + Span([], H);
  }

  /** The blocks on either side of a merged run are those of m. */
  lemma MergingNeighbours(m: seq<Block>, lo: nat, hi: nat, H: nat, c: seq<Block>)
    requires lo <= hi < |m| && c == Merging(m, lo, hi, H)
    ensures lo > 0 ==> c[lo - 1] == m[lo - 1]
    ensures hi + 1 < |m| ==> c[lo + 1] == m[hi + 1]
  {
  }

  /** One turn of the backward merge loop: the free predecessor absorbs the header
      and bytes of the merged block after it. */
  lemma AbsorbIntoPrev(m: seq<Block>, lo: nat, hi: nat, H: nat, c: seq<Block>)
    requires 0 < lo <= hi < |m| && m[lo - 1].free && c == Merging(m, lo, hi, H)
    ensures c[..lo - 1] + [c[lo - 1].(size := c[lo - 1].size + H + c[lo].size)] + c[lo + 1..]
      == Merging(m, lo - 1, hi, H)
  {
    assert m[lo - 1..hi + 1][1..] == m[lo..hi + 1];
    assert c[..lo - 1] == m[..lo - 1];
    assert c[lo + 1..] == m[hi + 1..];
  }

  /** One turn of the forward merge loop: the merged block absorbs the header and
      bytes of its free successor. */
  lemma AbsorbNext(m: seq<Block>, lo: nat, hi: nat, H: nat, c: seq<Block>)
    requires lo <= hi && hi + 1 < |m| && m[hi + 1].free && c == Merging(m, lo, hi, H)
    ensures c[..lo] + [c[lo].(size := c[lo].size + H + c[lo + 1].size)] + c[lo + 2..]
      == Merging(m, lo, hi + 1, H)
  {
    assert m[lo..hi + 2] == m[lo..hi + 1] + [m[hi + 1]];
    SpanConcat(m[lo..hi + 1], [m[hi + 1]], H);
    assert Span([m[hi + 1]], H) == H + m[hi + 1].size + Span([], H);
    assert c[..lo] == m[..lo];
    assert c[lo + 2..] == m[hi + 2..];
  }

  /** Release absorbs exactly the free run around i, the merged block has no free
      neighbour and covers the run's bytes and headers, and every block outside the
      run stays where it was. */
  lemma ReleaseMerges(bs: seq<Block>, i: nat, H: nat)
    requires i < |bs|
    ensures var m := MarkFree(bs, i);
      var lo := RunStart(m, i);
      var hi := RunEnd(m, i);
      var r := Release(bs, i, H);
      lo <= i <= hi &&
      (forall j :: lo <= j <= hi && j != i ==> bs[j].free) &&
      |r| == |bs| - (hi - lo) &&
      r[..lo] == bs[..lo] && r[lo + 1..] == bs[hi + 1..] &&
      r[lo].free && r[lo].addr == bs[lo].addr &&
      r[lo].size + H == Span(bs[lo..hi + 1], H) &&
      (lo == 0 || !r[lo - 1].free) &&
      (lo + 1 == |r| || !r[lo + 1].free)
  {
    var m := MarkFree(bs, i);
    var lo := RunStart(m, i);
    var hi := RunEnd(m, i);
    var r := Merging(m, lo, hi, H);
    MergingNeighbours(m, lo, hi, H, r);
    MergingParts(m, lo, hi, H);
    assert m[..lo] == bs[..lo];
    assert m[hi + 1..] == bs[hi + 1..];
    SpanSameSizes(m[lo..hi + 1], bs[lo..hi + 1], H);
  }

  /** The three parts of a merged list: the prefix before the run, the merged block,
      and the suffix after the run. */
  lemma MergingParts(m: seq<Block>, lo: nat, hi: nat, H: nat)
    requires lo <= hi < |m|
    ensures var r := Merging(m, lo, hi, H);
      r[..lo] == m[..lo] && r[lo + 1..] == m[hi + 1..] &&
      r[lo] == Block(m[lo].addr, Span(m[lo..hi + 1], H) - H, true)
  {
    var r := Merging(m, lo, hi, H);
    assert r[..lo] == m[..lo];
    assert r[lo + 1..] == m[hi + 1..];
  }

  /** Merging a run keeps the tiling: the merged block ends where the run ended. */
  lemma MergingTiled(m: seq<Block>, lo: nat, hi: nat, H: nat, start: int, brk: int)
    requires lo <= hi < |m| && Tiled(m, start, brk, H)
    ensures Tiled(Merging(m, lo, hi, H), start, brk, H)
  {
    var r := Merging(m, lo, hi, H);
    var run := m[lo..hi + 1];
    ContiguousSlice(m, lo, hi + 1, H);
    ContiguousEnd(run, H);
    assert End(r[lo], H) == End(m[hi], H);
    forall k | 0 < k < |r| ensures Adjoins(r, k, H) {
      if k < lo {
        assert Adjoins(m, k, H);
        assert r[k] == m[k] && r[k - 1] == m[k - 1];
      } else if k == lo {
        assert Adjoins(m, k, H);
        assert r[k - 1] == m[k - 1];
      } else if k == lo + 1 {
        assert Adjoins(m, hi + 1, H);
        assert r[k] == m[hi + 1];
      } else {
        assert Adjoins(m, k + hi - lo, H);
        assert r[k] == m[k + hi - lo] && r[k - 1] == m[k - 1 + hi - lo];
      }
    }
    if lo + 1 == |r| {
      assert hi == |m| - 1;
    } else {
      assert r[|r| - 1] == m[|m| - 1];
    }
  }

  /** Releasing a block keeps the tiling of the heap; the break does not move. */
  lemma ReleaseTiled(bs: seq<Block>, i: nat, H: nat, start: int, brk: int)
    requires i < |bs| && Tiled(bs, start, brk, H)
    ensures Tiled(Release(bs, i, H), start, brk, H)
  {
    var m := MarkFree(bs, i);
    forall k | 0 < k < |m| ensures Adjoins(m, k, H) {
      assert Adjoins(bs, k, H);
    }
    assert Tiled(m, start, brk, H);
    MergingTiled(m, RunStart(m, i), RunEnd(m, i), H, start, brk);
  }

  /** Releasing a block of a list with no two free neighbours keeps it so: the run is
      maximal on both sides and merged into one block. */
  lemma ReleaseNoAdjacentFree(bs: seq<Block>, i: nat, H: nat)
    requires i < |bs| && NoAdjacentFree(bs)
    ensures NoAdjacentFree(Release(bs, i, H))
  {
    var m := MarkFree(bs, i);
    var lo := RunStart(m, i);
    var hi := RunEnd(m, i);
    var r := Merging(m, lo, hi, H);
    forall k | 0 < k < |r| ensures Separated(r, k) {
      if k < lo {
        assert Separated(bs, k);
        assert r[k] == bs[k] && r[k - 1] == bs[k - 1];
      } else if k == lo {
        assert r[k - 1] == m[k - 1];
      } else if k == lo + 1 {
        assert r[k] == m[hi + 1];
      } else {
        assert Separated(bs, k + hi - lo);
        assert r[k] == bs[k + hi - lo] && r[k - 1] == bs[k - 1 + hi - lo];
      }
    }
  }

  /** Releasing a block of a well-formed heap keeps it well formed. */
  lemma ReleaseKeepsValid(bs: seq<Block>, i: nat, H: nat, start: int, brk: int)
    requires i < |bs| && Tiled(bs, start, brk, H) && NoAdjacentFree(bs)
    ensures Tiled(Release(bs, i, H), start, brk, H) && NoAdjacentFree(Release(bs, i, H))
  {
    ReleaseTiled(bs, i, H, start, brk);
    ReleaseNoAdjacentFree(bs, i, H);
  }

  /** A handle names one block: no other header sits at the same address. */
  lemma HandleUnique(bs: seq<Block>, H: nat, i: nat)
    requires H > 0 && i < |bs| && Contiguous(bs, H)
    ensures forall j :: 0 <= j < |bs| && bs[j].addr == bs[i].addr ==> j == i
  {
    ContiguousDistinct(bs, H);
  }

  /** Merging a run moves no byte: the merged block's size takes up the absorbed headers. */
  lemma MergingSpan(m: seq<Block>, lo: nat, hi: nat, H: nat)
    requires lo <= hi < |m|
    ensures Span(Merging(m, lo, hi, H), H) == Span(m, H)
  {
    var run := m[lo..hi + 1];
    var merged := Block(m[lo].addr, Span(run, H) - H, true);
    assert m == m[..lo] + run + m[hi + 1..];
    SpanConcat(m[..lo] + run, m[hi + 1..], H);
    SpanConcat(m[..lo], run, H);
    SpanConcat(m[..lo] + [merged], m[hi + 1..], H);
    SpanConcat(m[..lo], [merged], H);
    assert Span([merged], H) == H + merged.size + Span([], H);
  }

  /** Releasing a block changes no byte count: the heap span is the same. */
  lemma ReleaseSpan(bs: seq<Block>, i: nat, H: nat)
    requires i < |bs|
    ensures Span(Release(bs, i, H), H) == Span(bs, H)
  {
    var m := MarkFree(bs, i);
    MergingSpan(m, RunStart(m, i), RunEnd(m, i), H);
    SpanSameSizes(m, bs, H);
  }

  /** Handing out a free block and releasing it again restores the list exactly: the
      merge undoes the split, since the block's neighbours were not free. */
  lemma TakeThenRelease(bs: seq<Block>, i: nat, size: nat, H: nat)
    requires i < |bs| && Fits(bs[i], size) && NoAdjacentFree(bs)
    ensures Release(Take(bs, i, size, H), i, H) == bs
  {
    if i > 0 {
      assert Separated(bs, i);
    }
    if i + 1 < |bs| {
      assert Separated(bs, i + 1);
    }
    if size + H < bs[i].size {
      SplitThenRelease(bs, i, size, H);
    } else {
      WholeThenRelease(bs, i, size, H);
    }
  }

  lemma SplitThenRelease(bs: seq<Block>, i: nat, size: nat, H: nat)
    requires i < |bs| && Fits(bs[i], size) && size + H < bs[i].size
    requires i > 0 ==> !bs[i - 1].free
    requires i + 1 < |bs| ==> !bs[i + 1].free
    ensures Release(Take(bs, i, size, H), i, H) == bs
  {
    var t := Take(bs, i, size, H);
    TakeSplit(bs, i, size, H);
    var m := MarkFree(t, i);
    assert m[i + 1] == t[i + 1];
    assert m[..i] == bs[..i];
    assert m[i + 2..] == bs[i + 1..];
    assert RunStart(m, i) == i by {
      if i > 0 {
        assert m[i - 1] == bs[i - 1];
      }
    }
    assert RunEnd(m, i + 1) == i + 1 by {
      if i + 2 < |m| {
        assert m[i + 2] == bs[i + 1];
      }
    }
    assert RunEnd(m, i) == i + 1;
    assert m[i..i + 2] == [m[i], m[i + 1]];
    assert Span(m[i..i + 2], H) == H + bs[i].size by {
      assert m[i..i + 2][1..] == [m[i + 1]];
      assert Span([m[i + 1]], H) == H + m[i + 1].size + Span([], H);
    }
    assert Release(t, i, H) == bs[..i] + [bs[i]] + bs[i + 1..];
  }

  lemma WholeThenRelease(bs: seq<Block>, i: nat, size: nat, H: nat)
    requires i < |bs| && Fits(bs[i], size) && bs[i].size <= size + H
    requires i > 0 ==> !bs[i - 1].free
    requires i + 1 < |bs| ==> !bs[i + 1].free
    ensures Release(Take(bs, i, size, H), i, H) == bs
  {
    var t := Take(bs, i, size, H);
    var m := MarkFree(t, i);
    assert m == bs;
    assert RunStart(m, i) == i;
    assert RunEnd(m, i) == i;
    assert m[i..i + 1] == [m[i]];
    assert Span([m[i]], H) == H + m[i].size + Span([], H);
    assert Release(t, i, H) == bs[..i] + [bs[i]] + bs[i + 1..];
  }

  // ---------------------------------------------------------------------------
  // Release on short lists

  /** Releasing the only block just marks it free. */
  lemma ReleaseOnly(b: Block, H: nat)
    requires !b.free
    ensures Release([b], 0, H) == [b.(free := true)]
  {
    var m := MarkFree([b], 0);
    assert RunStart(m, 0) == 0 && RunEnd(m, 0) == 0;
    assert m[0..1] == [m[0]];
    assert Span([m[0]], H) == H + b.size + Span([], H);
  }

  /** Releasing the first of two blocks whose second is allocated only marks it free. */
  lemma ReleaseFirstOfTwo(b: Block, c: Block, H: nat)
    requires !c.free
    ensures Release([b, c], 0, H) == [b.(free := true), c]
  {
    var m := MarkFree([b, c], 0);
    assert RunStart(m, 0) == 0 && RunEnd(m, 0) == 0;
    assert m[0..1] == [m[0]] && m[1..] == [c];
    assert Span([m[0]], H) == H + b.size + Span([], H);
  }

  /** Releasing the second of two blocks whose first is free merges both into one
      free block at the first's address that takes over the second's header. */
  lemma ReleaseSecondOfTwo(b: Block, c: Block, H: nat)
    requires b.free
    ensures Release([b, c], 1, H) == [Block(b.addr, b.size + H + c.size, true)]
  {
    var m := MarkFree([b, c], 1);
    assert m == [b, c.(free := true)];
    assert RunStart(m, 1) == 0 && RunEnd(m, 1) == 1;
    assert m[0..2] == m && m[1..] == [m[1]] && m[..0] == [] && m[2..] == [];
    assert Span([m[1]], H) == H + c.size;
    assert Span(m, H) == H + b.size + H + c.size;
    assert Release([b, c], 1, H) == Merging(m, 0, 1, H);
  }
}

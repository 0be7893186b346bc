/** The headers of the block list with their link fields written out: a map from a
    header's address to its size, free flag, next and prev. Module Blocks keeps the
    links implicit in the order of a sequence; this module states what the split in
    find_block does to the explicit links, as written and with the successor's prev
    moved to the new block, and relates the second to Blocks.Take. It also writes out
    one pass of _free's backward merge loop, to show what that pass does on the links
    the split as written leaves. */
module Links {
  import opened Blocks

  /** One block_data header: the usable size, the free flag and the two links. */
  datatype Header = Header(size: nat, free: bool, next: Option<int>, prev: Option<int>)

  /** Following a's next link and then that header's prev link comes back to a. */
  ghost predicate NextBack(h: map<int, Header>, a: int)
    requires a in h
  {
    h[a].next.Some? ==> h[a].next.value in h && h[h[a].next.value].prev == Some(a)
  }

  /** Following a's prev link and then that header's next link comes back to a. */
  ghost predicate PrevBack(h: map<int, Header>, a: int)
    requires a in h
  {
    h[a].prev.Some? ==> h[a].prev.value in h && h[h[a].prev.value].next == Some(a)
  }

  /** next and prev are inverse links throughout the list. */
  ghost predicate Linked(h: map<int, Header>)
  {
    forall a {:trigger NextBack(h, a)} {:trigger PrevBack(h, a)} :: a in h ==> NextBack(h, a) && PrevBack(h, a)
  }

  /** The loop condition of _free's backward merge at header a: a has a predecessor
      and the predecessor is free. */
  predicate MergesBackward(h: map<int, Header>, a: int)
    requires a in h
  {
    h[a].prev.Some? && h[a].prev.value in h && h[h[a].prev.value].free
  }


  /** The header of block k with the links the list order gives it. */
  function HeaderAt(bs: seq<Block>, k: nat): Header
    requires k < |bs|
  {
    Header(bs[k].size, bs[k].free,
      if k + 1 < |bs| then Some(bs[k + 1].addr) else None,
      if k > 0 then Some(bs[k - 1].addr) else None)
  }

  /** The headers of blocks k.. of a block list, each with the links of its place in
      the whole list. */
  ghost function LinksFrom(bs: seq<Block>, k: nat): (h: map<int, Header>)
    requires k <= |bs|
    ensures forall j :: k <= j < |bs| ==> bs[j].addr in h
    ensures Distinct(bs) ==> forall j :: k <= j < |bs| ==> h[bs[j].addr].size == bs[j].size
    decreases |bs| - k
  {
    if k == |bs| then map[] else LinksFrom(bs, k + 1)[bs[k].addr := HeaderAt(bs, k)]
  }

  /** The headers of a block list, each with the links of its place in the list. */
  ghost function LinksOf(bs: seq<Block>): (h: map<int, Header>)
    ensures forall k :: 0 <= k < |bs| ==> bs[k].addr in h
    ensures Distinct(bs) ==> forall k :: 0 <= k < |bs| ==> h[bs[k].addr].size == bs[k].size
  {
    LinksFrom(bs, 0)
  }

  lemma {:induction false} LinksFromAt(bs: seq<Block>, k: nat, j: nat)
    requires Distinct(bs) && k <= j < |bs|
    ensures bs[j].addr in LinksFrom(bs, k) && LinksFrom(bs, k)[bs[j].addr] == HeaderAt(bs, j)
    decreases j - k
  {
    if k < j {
      LinksFromAt(bs, k + 1, j);
    }
  }

  lemma {:induction false} LinksFromIndex(bs: seq<Block>, k: nat, a: int) returns (j: nat)
    requires k <= |bs| && a in LinksFrom(bs, k)
    ensures k <= j < |bs| && bs[j].addr == a
    decreases |bs| - k
  {
    if bs[k].addr == a {
      j := k;
    } else {
      j := LinksFromIndex(bs, k + 1, a);
    }
  }

  /** Block k's header is stored at its address with the links of its place. */
  lemma LinksOfAt(bs: seq<Block>, k: nat)
    requires Distinct(bs) && k < |bs|
    ensures bs[k].addr in LinksOf(bs) && LinksOf(bs)[bs[k].addr] == HeaderAt(bs, k)
  {
    LinksFromAt(bs, 0, k);
  }

  /** Every stored header is the header of some block of the list. */
  lemma LinksOfIndex(bs: seq<Block>, a: int) returns (k: nat)
    requires a in LinksOf(bs)
    ensures k < |bs| && bs[k].addr == a
  {
    k := LinksFromIndex(bs, 0, a);
  }

  /** The split branch of find_block as written: the new header at c + H + size takes
      the remainder, the old next and c as prev; c shrinks, is allocated and points
      at the new header. The old successor's prev is left as it was. */
  function SplitAsWritten(h: map<int, Header>, c: int, size: nat, H: nat): (r: map<int, Header>)
    requires c in h && size + H < h[c].size
    ensures r.Keys == h.Keys + {c + H + size}
    ensures forall a :: a in h && a != c && a != c + H + size ==> r[a] == h[a]
  {
    var b := h[c];
    var n := c + H + size;
    h[c := b.(free := false, size := size, next := Some(n))][n := Header(b.size - size - H, true, b.next, Some(c))]
  }

  /** The split with the link the source leaves out: the old successor's prev is
      moved to the new header as well. */
  function SplitRelinked(h: map<int, Header>, c: int, size: nat, H: nat): (r: map<int, Header>)
    requires c in h && size + H < h[c].size
    ensures r.Keys == h.Keys + {c + H + size}
    ensures h[c].next.Some? && h[c].next.value in h && h[c].next.value != c + H + size ==>
      r[h[c].next.value].prev == Some(c + H + size)
  {
    var s := SplitAsWritten(h, c, size, H);
    var b := h[c];
    if b.next.Some? && b.next.value in s then s[b.next.value := s[b.next.value].(prev := Some(c + H + size))] else s
  }

  // ---------------------------------------------------------------------------
  // The as-written split breaks the links

  /** After the split as written, the old successor's prev still names c although c's
      next is now the new header: the links are no longer inverse, and freeing the
      successor does not merge it backward, since c is allocated, although the block
      before it in list order, the new one, is free. */
  lemma SplitAsWrittenStalePrev(h: map<int, Header>, c: int, size: nat, H: nat)
    requires Linked(h) && c in h && size + H < h[c].size && H > 0
    requires c + H + size !in h && h[c].next.Some?
    ensures var r := SplitAsWritten(h, c, size, H);
      var s := h[c].next.value;
      s in r && r[s].prev == Some(c) && r[c].next == Some(c + H + size) && r[c + H + size].next == Some(s) &&
      r[c + H + size].free && !MergesBackward(r, s) && !Linked(r)
  {
    var r := SplitAsWritten(h, c, size, H);
    var s := h[c].next.value;
    assert NextBack(h, c);
    assert !PrevBack(r, s);
  }

  /** One pass of _free's backward loop on the links: the predecessor p of header a
      takes a's header and bytes and a's next, and a's successor, if any, names p as
      its prev. */
  function AbsorbAsWritten(h: map<int, Header>, a: int, H: nat): (r: map<int, Header>)
    requires a in h && h[a].prev.Some? && h[a].prev.value in h
    ensures r.Keys == h.Keys
    ensures var p := h[a].prev.value;
      r[p].size == h[p].size + H + h[a].size && r[p].next == h[a].next && r[p].free == h[p].free
    ensures h[a].next.Some? && h[a].next.value in h && h[a].next.value != h[a].prev.value ==>
      r[h[a].next.value].prev == h[a].prev
    ensures forall x :: x in h && x != h[a].prev.value && (h[a].next.None? || x != h[a].next.value) ==> r[x] == h[x]
  {
    var p := h[a].prev.value;
    var g := h[p := h[p].(size := h[p].size + H + h[a].size, next := h[a].next)];
    if h[a].next.Some? && h[a].next.value in g then g[h[a].next.value := g[h[a].next.value].(prev := Some(p))] else g
  }

  /** The stale prev lets a block absorb a neighbour it is not adjacent to. Split c as
      written, hand out the remainder n whole, free c (its predecessor is allocated and
      its next, n, is allocated, so nothing merges), then free the old successor s: its
      prev still names c, which is free, so the backward loop runs. After that pass c
      has taken over s's next, so n is unlinked while allocated, and c's usable bytes
      cover n's header: a later _malloc can hand out memory that overlaps n. */
  lemma SplitAsWrittenLiveOverlap(h: map<int, Header>, c: int, size: nat, H: nat)
    requires Linked(h) && c in h && size + H < h[c].size && H > 0
    requires c + H + size !in h && h[c].next.Some? && h[c].next.value in h && h[c].next.value != c
    requires h[c].prev.Some? ==> h[c].prev.value in h && !h[h[c].prev.value].free
    ensures var n := c + H + size;
      var s := h[c].next.value;
      var r := SplitAsWritten(h, c, size, H)[n := SplitAsWritten(h, c, size, H)[n].(free := false)];
      var f := r[c := r[c].(free := true)][s := r[s].(free := true)];
      s in f && MergesBackward(f, s) && f[s].prev == Some(c) &&
      var g := AbsorbAsWritten(f, s, H);
      g[c].free && g[c].next != Some(n) && n in g && !g[n].free &&
      c + H <= n < c + H + g[c].size
  {
    var n := c + H + size;
    var s := h[c].next.value;
    assert NextBack(h, c);
    assert NextBack(h, s);
    SplitAsWrittenStalePrev(h, c, size, H);
  }

  /** The relinked split keeps the links inverse, and freeing the old successor merges
      it backward into the free remainder. */
  lemma SplitRelinkedLinked(h: map<int, Header>, c: int, size: nat, H: nat)
    requires Linked(h) && c in h && size + H < h[c].size && H > 0
    requires c + H + size !in h
    ensures Linked(SplitRelinked(h, c, size, H))
    ensures h[c].next.Some? ==>
      h[c].next.value in SplitRelinked(h, c, size, H) && MergesBackward(SplitRelinked(h, c, size, H), h[c].next.value)
  {
    var r := SplitRelinked(h, c, size, H);
    var n := c + H + size;
    var b := h[c];
    assert NextBack(h, c) && PrevBack(h, c);
    forall a | a in r ensures NextBack(r, a) && PrevBack(r, a) {
      if a != c && a != n {
        assert NextBack(h, a) && PrevBack(h, a);
        if h[a].prev.Some? {
          assert NextBack(h, h[a].prev.value);
        }
        if h[a].next.Some? {
          assert PrevBack(h, h[a].next.value);
        }
      } else if a == c && b.prev.Some? {
        assert NextBack(h, b.prev.value);
      }
    }
  }

  // ---------------------------------------------------------------------------
  // The sequence model is the relinked split

  /** The links a list order gives are inverse. */
  lemma LinksOfLinked(bs: seq<Block>)
    requires Distinct(bs)
    ensures Linked(LinksOf(bs))
  {
    var h := LinksOf(bs);
    forall a | a in h ensures NextBack(h, a) && PrevBack(h, a) {
      var k := LinksOfIndex(bs, a);
      LinksOfAt(bs, k);
      if k + 1 < |bs| {
        LinksOfAt(bs, k + 1);
      }
      if k > 0 {
        LinksOfAt(bs, k - 1);
      }
    }
  }

  /** No header of a tiled list lies strictly inside block i. */
  lemma InsideNoHeader(bs: seq<Block>, H: nat, i: nat, x: int)
    requires H > 0 && Contiguous(bs, H) && i < |bs| && bs[i].addr < x < End(bs[i], H)
    ensures forall j :: 0 <= j < |bs| ==> bs[j].addr != x
  {
    forall j | 0 <= j < |bs| ensures bs[j].addr != x {
      if j < i {
        ContiguousOrdered(bs, H, j, i);
      } else if i < j {
        ContiguousOrdered(bs, H, i, j);
      }
    }
  }

  /** Splitting block i of the sequence model produces exactly the links of the
      relinked split; the new header's address is not one of the old headers. */
  lemma TakeIsRelinked(bs: seq<Block>, i: nat, size: nat, H: nat, start: int, brk: int)
    requires H > 0 && Tiled(bs, start, brk, H) && i < |bs| && size + H < bs[i].size
    ensures Distinct(bs) && bs[i].addr + H + size !in LinksOf(bs)
    ensures LinksOf(Take(bs, i, size, H)) == SplitRelinked(LinksOf(bs), bs[i].addr, size, H)
  {
    var r := Take(bs, i, size, H);
    var n := bs[i].addr + H + size;
    ContiguousDistinct(bs, H);
    TakeTiled(bs, i, size, H, start, brk);
    ContiguousDistinct(r, H);
    InsideNoHeader(bs, H, i, n);
    if n in LinksOf(bs) {
      var j := LinksOfIndex(bs, n);
      assert false;
    }
    RelinkedEqual(bs, i, size, H, r);
  }

  /** The map equality behind TakeIsRelinked, once the addresses are known distinct. */
  lemma RelinkedEqual(bs: seq<Block>, i: nat, size: nat, H: nat, r: seq<Block>)
    requires i < |bs| && size + H < bs[i].size && r == Take(bs, i, size, H)
    requires Distinct(bs) && Distinct(r)
    requires forall j :: 0 <= j < |bs| ==> bs[j].addr != bs[i].addr + H + size
    ensures LinksOf(r) == SplitRelinked(LinksOf(bs), bs[i].addr, size, H)
  {
    var n := bs[i].addr + H + size;
    var h := LinksOf(bs);
    var L := LinksOf(r);
    var R := SplitRelinked(h, bs[i].addr, size, H);
    TakeSplit(bs, i, size, H);
    forall a | a in L ensures a in R && L[a] == R[a] {
      var k := LinksOfIndex(r, a);
      LinksOfAt(r, k);
      RelinkedAt(bs, i, size, H, r, k);
    }
    forall a | a in R ensures a in L {
      if a == n {
        LinksOfAt(r, i + 1);
      } else {
        var k := LinksOfIndex(bs, a);
        if k < i {
          assert r[k] == bs[k];
          LinksOfAt(r, k);
        } else if k == i {
          LinksOfAt(r, k);
        } else {
          assert r[k + 1] == bs[k];
          LinksOfAt(r, k + 1);
        }
      }
    }
  }

  /** Block k of the split list has, in the relinked split, the header its place in
      the split list gives it. */
  lemma RelinkedAt(bs: seq<Block>, i: nat, size: nat, H: nat, r: seq<Block>, k: nat)
    requires i < |bs| && size + H < bs[i].size && r == Take(bs, i, size, H) && k < |r|
    requires Distinct(bs)
    requires forall j :: 0 <= j < |bs| ==> bs[j].addr != bs[i].addr + H + size
    ensures var R := SplitRelinked(LinksOf(bs), bs[i].addr, size, H);
      r[k].addr in R && R[r[k].addr] == HeaderAt(r, k)
  {
    TakeSplit(bs, i, size, H);
    LinksOfAt(bs, i);
    if k < i {
      RelinkedBefore(bs, i, size, H, r, k);
    } else if k > i + 1 {
      RelinkedAfter(bs, i, size, H, r, k);
    }
  }

  lemma RelinkedBefore(bs: seq<Block>, i: nat, size: nat, H: nat, r: seq<Block>, k: nat)
    requires i < |bs| && size + H < bs[i].size && r == Take(bs, i, size, H) && k < i
    requires Distinct(bs)
    requires forall j :: 0 <= j < |bs| ==> bs[j].addr != bs[i].addr + H + size
    ensures var R := SplitRelinked(LinksOf(bs), bs[i].addr, size, H);
      r[k].addr in R && R[r[k].addr] == HeaderAt(r, k)
  {
    TakeSplit(bs, i, size, H);
    LinksOfAt(bs, i);
    LinksOfAt(bs, k);
    assert r[k] == bs[k] && r[k + 1].addr == bs[k + 1].addr;
    if k > 0 {
      assert r[k - 1] == bs[k - 1];
    }
  }

  lemma RelinkedAfter(bs: seq<Block>, i: nat, size: nat, H: nat, r: seq<Block>, k: nat)
    requires i < |bs| && size + H < bs[i].size && r == Take(bs, i, size, H) && i + 1 < k < |r|
    requires Distinct(bs)
    requires forall j :: 0 <= j < |bs| ==> bs[j].addr != bs[i].addr + H + size
    ensures var R := SplitRelinked(LinksOf(bs), bs[i].addr, size, H);
      r[k].addr in R && R[r[k].addr] == HeaderAt(r, k)
  {
    LinksOfAt(bs, i);
    LinksOfAt(bs, k - 1);
    TakeSplit(bs, i, size, H);
    assert r[k] == bs[k - 1] by {
      assert r[i + 2..][k - i - 2] == bs[i + 1..][k - i - 2];
    }
    if k > i + 2 {
      assert r[k - 1] == bs[k - 2] by {
        assert r[i + 2..][k - i - 3] == bs[i + 1..][k - i - 3];
      }
    }
    if k + 1 < |r| {
      assert r[k + 1] == bs[k] by {
        assert r[i + 2..][k - i - 1] == bs[i + 1..][k - i - 1];
      }
    }
    if k == i + 2 {
      assert HeaderAt(r, k) == HeaderAt(bs, k - 1).(prev := Some(bs[i].addr + H + size));
    } else {
      assert HeaderAt(r, k) == HeaderAt(bs, k - 1);
    }
  }

  /** Where the split block has a successor, the as-written split disagrees with the
      sequence model: the successor's prev is stale. */
  lemma TakeIsNotAsWritten(bs: seq<Block>, i: nat, size: nat, H: nat, start: int, brk: int)
    requires H > 0 && Tiled(bs, start, brk, H) && i + 1 < |bs| && size + H < bs[i].size
    ensures Distinct(bs) && LinksOf(Take(bs, i, size, H)) != SplitAsWritten(LinksOf(bs), bs[i].addr, size, H)
  {
    TakeIsRelinked(bs, i, size, H, start, brk);
    var h := LinksOf(bs);
    var c := bs[i].addr;
    var s := bs[i + 1].addr;
    LinksOfAt(bs, i);
    LinksOfAt(bs, i + 1);
    assert SplitAsWritten(h, c, size, H)[s].prev == Some(c);
  }
}

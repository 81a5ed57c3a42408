/** Laws of the allocator on block lists: what splitting, appending, merging and
    trimming do to order, tiling and tidiness, and so what every call keeps. */
module HeapLaws {
  import opened Words
  import opened HeapSpec

  // ----- replacing a stretch of the list

  ghost predicate Inside(bs: seq<Block>, lo: int, hi: int) {
    forall i :: 0 <= i < |bs| ==> lo <= bs[i].addr && PayloadEnd(bs[i]) <= hi
  }

  lemma OrderedSplice(bs: seq<Block>, i: nat, k: nat, mid: seq<Block>, lo: int, hi: int)
    requires Ordered(bs) && i <= k <= |bs|
    requires Ordered(mid) && Inside(mid, lo, hi)
    requires forall j :: 0 <= j < i ==> PayloadEnd(bs[j]) <= lo
    requires forall j :: k <= j < |bs| ==> hi <= bs[j].addr
    requires forall j :: k <= j < |bs| ==> forall j' :: 0 <= j' < i ==> PayloadEnd(bs[j']) <= bs[j].addr
    ensures Ordered(bs[..i] + mid + bs[k..])
  {
    var r := bs[..i] + mid + bs[k..];
    forall a, b | 0 <= a < b < |r| ensures PayloadEnd(r[a]) <= r[b].addr {
      if b < i {
      } else if b < i + |mid| {
        assert r[b] == mid[b - i];
        if a >= i { assert r[a] == mid[a - i]; }
      } else {
        assert r[b] == bs[b - i - |mid| + k];
        if a >= i + |mid| { assert r[a] == bs[a - i - |mid| + k]; }
        else if a >= i { assert r[a] == mid[a - i]; }
      }
    }
  }

  lemma AllOkSplice(bs: seq<Block>, i: nat, k: nat, mid: seq<Block>, end: int)
    requires AllOk(bs, end) && AllOk(mid, end) && i <= k <= |bs|
    ensures AllOk(bs[..i] + mid + bs[k..], end)
  {
  }

  lemma FlagKeepsWellFormed(h: Heap, i: nat, f: bool)
    requires WellFormed(h) && i < |h.blocks|
    ensures WellFormed(Heap(h.blocks[i := h.blocks[i].(free := f)], h.end))
  {
    var bs := h.blocks[i := h.blocks[i].(free := f)];
    forall k | 0 <= k < |bs| ensures BlockOk(bs[k], h.end) {
      assert BlockOk(h.blocks[k], h.end);
    }
  }

  // ----- kmalloc keeps the invariants

  /** The two halves of a split block. */
  lemma SplitHalves(l: Layout, b: Block, n: int, end: int)
    requires BlockOk(b, end) && end < HEAP_END && 8 <= n && n % 8 == 0
    requires b.size >= n && b.size >= W32(n + HEADER + GUARD + MIN_BLOCK)
    ensures b.size >= n + 32
    ensures var r := Right(l, b, n); r.size == b.size - n - 24
    ensures BlockOk(Left(b, n), end) && BlockOk(Right(l, b, n), end)
    ensures PayloadEnd(Left(b, n)) + Pad(l) == Right(l, b, n).addr
    ensures PayloadEnd(Right(l, b, n)) == PayloadEnd(b) - GUARD + Pad(l)
  {
    EightSum(b.size, n);
    AlignedSum(b.addr + HEADER + Pad(l), n);
  }

  lemma TakeKeepsWellFormed(l: Layout, h: Heap, i: nat, n: int)
    requires WellFormed(h) && i < |h.blocks| && Fits(h.blocks[i], n) && 8 <= n && n % 8 == 0
    ensures WellFormed(Take(l, h, i, n))
  {
    var b := h.blocks[i];
    assert BlockOk(b, h.end);
    if b.size < W32(n + HEADER + GUARD + MIN_BLOCK) {
      FlagKeepsWellFormed(h, i, false);
    } else {
      SplitHalves(l, b, n, h.end);
      var mid := [Left(b, n), Right(l, b, n)];
      OrderedSplice(h.blocks, i, i + 1, mid, b.addr, PayloadEnd(b));
      AllOkSplice(h.blocks, i, i + 1, mid, h.end);
    }
  }

  /** The only request that append must not accept is the one that wraps. */
  lemma AppendBound(end: int, n: int)
    requires HEAP_START <= end < HEAP_END && 8 <= n < TWO32 && n % 8 == 0 && n <= EarlyLimit(end)
    ensures var e := W32(end + HEADER + n + GUARD);
      if BoundWraps(end, n) then end <= e < HEAP_END && e == end + HEADER + n + GUARD - TWO32
      else end <= e < HEAP_END ==> e == end + HEADER + n + GUARD
  {
  }

  /** A proper block put behind the list, with the top moved past it. */
  lemma OnTop(h: Heap, b: Block, top: int)
    requires WellFormed(h) && h.blocks != [] && b.addr == h.end && 8 <= b.size && b.size % 8 == 0
    requires top == PayloadEnd(b) + GUARD && top < HEAP_END
    ensures WellFormed(Heap(h.blocks + [b], top))
  {
    var bs := h.blocks + [b];
    AlignedSum(h.end + HEADER + GUARD, b.size);
    forall i | 0 <= i < |bs| ensures BlockOk(bs[i], top) {
      if i < |h.blocks| { assert BlockOk(h.blocks[i], h.end); }
    }
    forall i, j | 0 <= i < j < |bs| ensures PayloadEnd(bs[i]) <= bs[j].addr {
      assert BlockOk(h.blocks[i], h.end);
    }
  }

  lemma AppendKeepsWellFormed(h: Heap, n: int)
    requires WellFormed(h) && h.blocks != [] && 8 <= n < TWO32 && n % 8 == 0 && n <= EarlyLimit(h.end)
    ensures WellFormed(Append(h, n).heap) <==> !BoundWraps(h.end, n)
  {
    AppendBound(h.end, n);
    var g := Append(h, n).heap;
    if BoundWraps(h.end, n) {
      assert !BlockOk(g.blocks[|h.blocks|], g.end);
    } else if g != h {
      OnTop(h, Block(h.end, n, false), g.end);
    }
  }

  /** A wrapping request passes every earlier test and finds no free block. */
  lemma WrapReachesAppend(l: Layout, h: Heap, size: int)
    requires WellFormed(h) && 0 <= size < TWO32 && BoundWraps(h.end, AlignUp(size))
    ensures Allocate(l, h, size) == Append(h, AlignUp(size))
  {
    assert forall k :: 0 <= k < |h.blocks| && BlockOk(h.blocks[k], h.end) ==> !Fits(h.blocks[k], AlignUp(size));
  }

  lemma AlignUpRounds(size: int)
    requires 0 < size < TWO32 && size <= AlignUp(size)
    ensures 8 <= AlignUp(size) < TWO32 && AlignUp(size) % 8 == 0 && AlignUp(size) < size + 8
  {
  }

  lemma FirstKeepsWellFormed(l: Layout, h: Heap, n: int)
    requires WellFormed(h) && h.blocks == [] && 8 <= n && n % 8 == 0 && n <= EarlyLimit(h.end)
    ensures WellFormed(AllocateFirst(l, h, n).heap)
    ensures l.Intended? ==> Tiled(AllocateFirst(l, h, n).heap)
  {
    var newEnd := HEAP_START + HEADER + n + Pad(l);
    FirstBounds(l, n);
    if newEnd < HEAP_END {
      assert AllocateFirst(l, h, n).heap == Heap([Block(HEAP_START, n, false)], newEnd);
    }
  }

  lemma FirstBounds(l: Layout, n: int)
    requires 8 <= n && n % 8 == 0 && n <= EarlyLimit(HEAP_START)
    ensures var newEnd := HEAP_START + HEADER + n + Pad(l);
      W32(newEnd) == newEnd && newEnd % 4 == 0 && BlockOk(Block(HEAP_START, n, false), newEnd)
  {
    assert EarlyLimit(HEAP_START) == HEAP_END - HEAP_START - HEADER - GUARD;
    EightIsTwiceFour(n);
  }

  lemma EightIsTwiceFour(n: int)
    requires n % 8 == 0
    ensures n % 4 == 0
  {
    AlignedSum(0, n);
  }

  /** kmalloc keeps the block list well formed in either layout, except for the
      one wrapping request. */
  lemma AllocateKeepsWellFormed(l: Layout, h: Heap, size: int)
    requires WellFormed(h) && 0 <= size < TWO32
    ensures WellFormed(Allocate(l, h, size).heap) <==> !BoundWraps(h.end, AlignUp(size))
  {
    var n := AlignUp(size);
    if BoundWraps(h.end, n) {
      WrapReachesAppend(l, h, size);
    }
    if size != 0 && size <= n && n <= EarlyLimit(h.end) {
      AlignUpRounds(size);
      var i := FirstFit(h.blocks, n);
      if h.blocks == [] { FirstKeepsWellFormed(l, h, n); }
      else if i < |h.blocks| { assert BlockOk(h.blocks[i], h.end); TakeKeepsWellFormed(l, h, i, n); }
      else { AppendKeepsWellFormed(h, n); }
    }
  }

  // ----- tilings

  lemma {:induction false} TilesConcat(a: seq<Block>, b: seq<Block>, lo: int, hi: int)
    ensures Tiles(a + b, lo, hi) <==> Tiles(a, lo, lo + Stride(a)) && Tiles(b, lo + Stride(a), hi)
    ensures Stride(a + b) == Stride(a) + Stride(b)
  {
    if a == [] {
      assert a + b == b;
    } else {
      assert (a + b)[1..] == a[1..] + b;
      if a[0].addr == lo { TilesConcat(a[1..], b, PayloadEnd(a[0]) + GUARD, hi); }
      else { TilesConcat(a[1..], b, lo, hi); }
    }
  }

  lemma Parts(bs: seq<Block>, i: nat, k: nat)
    requires i <= k <= |bs|
    ensures bs == bs[..i] + (bs[i..k] + bs[k..])
  {
  }

  lemma {:induction false} TilesPart(bs: seq<Block>, i: nat, k: nat, lo: int, hi: int)
    requires Tiles(bs, lo, hi) && i <= k <= |bs|
    ensures var at := lo + Stride(bs[..i]); Tiles(bs[i..k], at, at + Stride(bs[i..k]))
  {
    Parts(bs, i, k);
    TilesConcat(bs[..i], bs[i..k] + bs[k..], lo, hi);
    TilesConcat(bs[i..k], bs[k..], lo + Stride(bs[..i]), hi);
  }

  lemma {:induction false} TilesSwap(a: seq<Block>, m: seq<Block>, mid: seq<Block>, c: seq<Block>, lo: int, hi: int)
    requires Tiles(a + (m + c), lo, hi)
    requires var at := lo + Stride(a); Tiles(mid, at, at + Stride(m))
    ensures Tiles(a + (mid + c), lo, hi)
  {
    var at := lo + Stride(a);
    TilesConcat(a, m + c, lo, hi);
    TilesConcat(m, c, at, hi);
    TilesStride(mid, at, at + Stride(m));
    TilesConcat(mid, c, at, hi);
    TilesConcat(a, mid + c, lo, hi);
  }

  lemma Regroup(a: seq<Block>, b: seq<Block>, c: seq<Block>)
    ensures a + b + c == a + (b + c)
  {
  }

  /** Replacing a stretch by blocks that tile the same range keeps a tiling. */
  lemma {:induction false} TilesSplice(bs: seq<Block>, i: nat, k: nat, mid: seq<Block>, lo: int, hi: int)
    requires Tiles(bs, lo, hi) && i <= k <= |bs|
    requires var at := lo + Stride(bs[..i]); Tiles(mid, at, at + Stride(bs[i..k]))
    ensures Tiles(bs[..i] + mid + bs[k..], lo, hi)
  {
    var a, m, c := bs[..i], bs[i..k], bs[k..];
    Parts(bs, i, k);
    TilesSwap(a, m, mid, c, lo, hi);
    Regroup(a, mid, c);
  }

  lemma {:induction false} TilesStride(bs: seq<Block>, lo: int, hi: int)
    requires Tiles(bs, lo, hi)
    ensures hi == lo + Stride(bs)
  {
    if bs != [] { TilesStride(bs[1..], PayloadEnd(bs[0]) + GUARD, hi); }
  }

  lemma {:induction false} TilesNext(bs: seq<Block>, i: nat, lo: int, hi: int)
    requires Tiles(bs, lo, hi) && i < |bs|
    ensures i + 1 < |bs| ==> bs[i + 1].addr == PayloadEnd(bs[i]) + GUARD
    ensures i + 1 == |bs| ==> hi == PayloadEnd(bs[i]) + GUARD
  {
    if i > 0 { TilesNext(bs[1..], i - 1, PayloadEnd(bs[0]) + GUARD, hi); }
  }

  /** Replacing blocks i..k by blocks that tile their place keeps a tiling. */
  lemma TilesReplace(bs: seq<Block>, i: nat, k: nat, mid: seq<Block>, lo: int, hi: int)
    requires Tiles(bs, lo, hi) && i < k <= |bs|
    requires Tiles(mid, bs[i].addr, PayloadEnd(bs[k - 1]) + GUARD)
    ensures Tiles(bs[..i] + mid + bs[k..], lo, hi)
  {
    var at := lo + Stride(bs[..i]);
    TilesPart(bs, i, k, lo, hi);
    TilesNext(bs[i..k], k - i - 1, at, at + Stride(bs[i..k]));
    TilesSplice(bs, i, k, mid, lo, hi);
  }

  lemma TakeKeepsTiled(h: Heap, i: nat, n: int)
    requires WellFormed(h) && Tiled(h) && i < |h.blocks| && Fits(h.blocks[i], n) && 8 <= n && n % 8 == 0
    ensures Tiled(Take(Intended, h, i, n))
  {
    var b := h.blocks[i];
    if b.size >= W32(n + HEADER + GUARD + MIN_BLOCK) {
      SplitHalves(Intended, b, n, h.end);
      var r := Right(Intended, b, n);
      assert Tiles([r], r.addr, PayloadEnd(r) + GUARD);
      assert [Left(b, n), r][1..] == [r];
      TilesReplace(h.blocks, i, i + 1, [Left(b, n), r], HEAP_START, h.end);
    } else {
      var mid := [b.(free := false)];
      assert h.blocks[i := b.(free := false)] == h.blocks[..i] + mid + h.blocks[i + 1..];
      TilesReplace(h.blocks, i, i + 1, mid, HEAP_START, h.end);
    }
  }

  lemma AppendKeepsTiled(h: Heap, n: int)
    requires WellFormed(h) && Tiled(h) && h.blocks != [] && 8 <= n < TWO32 && n % 8 == 0 && n <= EarlyLimit(h.end)
    requires !BoundWraps(h.end, n)
    ensures Tiled(Append(h, n).heap)
  {
    AppendBound(h.end, n);
    TilesStride(h.blocks, HEAP_START, h.end);
    if Append(h, n).heap != h {
      TilesConcat(h.blocks, [Block(h.end, n, false)], HEAP_START, Append(h, n).heap.end);
    }
  }

  lemma TakeKeepsTidy(l: Layout, h: Heap, i: nat, n: int)
    requires Tidy(h.blocks) && i < |h.blocks| && h.blocks[i].free
    ensures Tidy(Take(l, h, i, n).blocks)
  {
    var bs, gs := h.blocks, Take(l, h, i, n).blocks;
    if |gs| != |bs| {
      assert forall k :: i + 2 <= k < |gs| ==> gs[k] == bs[k - 1];
    }
  }

  /** In the intended layout kmalloc keeps the tiling and the tidiness too,
      again except for the one wrapping request. */
  lemma AllocateKeepsInv(h: Heap, size: int)
    requires Inv(h) && 0 <= size < TWO32
    ensures Inv(Allocate(Intended, h, size).heap) <==> !BoundWraps(h.end, AlignUp(size))
  {
    AllocateKeepsWellFormed(Intended, h, size);
    var n := AlignUp(size);
    if size != 0 && size <= n && n <= EarlyLimit(h.end) && !BoundWraps(h.end, n) {
      AlignUpRounds(size);
      var i := FirstFit(h.blocks, n);
      if h.blocks == [] {
        FirstKeepsWellFormed(Intended, h, n);
      } else if i < |h.blocks| {
        TakeKeepsTiled(h, i, n);
        TakeKeepsTidy(Intended, h, i, n);
      } else {
        AppendKeepsTiled(h, n);
      }
    }
  }

  // ----- kfree keeps the invariants

  ghost predicate Laid(bs: seq<Block>, end: int) {
    WellFormed(Heap(bs, end)) && Tiles(bs, HEAP_START, end)
  }

  lemma JoinedIsExact(b: Block, c: Block, end: int)
    requires BlockOk(b, end) && BlockOk(c, end) && end < HEAP_END && c.addr == PayloadEnd(b) + GUARD
    ensures Joined(b, c) == b.(size := b.size + HEADER + c.size + GUARD)
    ensures PayloadEnd(Joined(b, c)) == PayloadEnd(c) && BlockOk(Joined(b, c), end)
  {
    EightSum(b.size, c.size);
  }

  /** Merging two blocks of a tiling only replaces them by one block that covers
      exactly the same bytes: its guard word falls on the second one's. */
  lemma MergeIsExact(bs: seq<Block>, end: int, i: nat)
    requires Laid(bs, end) && i + 1 < |bs|
    ensures var c := Joined(bs[i], bs[i + 1]);
      && Merge(bs, i) == bs[..i] + [c] + bs[i + 2..]
      && c == bs[i].(size := bs[i].size + HEADER + bs[i + 1].size + GUARD)
      && PayloadEnd(c) == PayloadEnd(bs[i + 1]) && BlockOk(c, end)
  {
    TilesNext(bs, i, HEAP_START, end);
    TilesNext(bs, i + 1, HEAP_START, end);
    JoinedIsExact(bs[i], bs[i + 1], end);
    var tail, a := bs[i + 2..], PayloadEnd(bs[i + 1]);
    assert tail != [] ==> tail[0] == bs[i + 2] && Stamp(tail[0], a) == tail[0];
    assert StampHead(tail, a) == tail;
  }

  lemma MergeKeepsTiles(bs: seq<Block>, end: int, i: nat)
    requires Laid(bs, end) && i + 1 < |bs|
    ensures Tiles(Merge(bs, i), HEAP_START, end)
  {
    MergeIsExact(bs, end, i);
    var c := Joined(bs[i], bs[i + 1]);
    assert Tiles([c], c.addr, PayloadEnd(c) + GUARD);
    TilesReplace(bs, i, i + 2, [c], HEAP_START, end);
  }

  lemma MergeKeepsLaid(bs: seq<Block>, end: int, i: nat)
    requires Laid(bs, end) && i + 1 < |bs|
    ensures Laid(Merge(bs, i), end)
  {
    MergeKeepsTiles(bs, end, i);
    MergeIsExact(bs, end, i);
    var c := Joined(bs[i], bs[i + 1]);
    OrderedSplice(bs, i, i + 2, [c], c.addr, PayloadEnd(c));
    AllOkSplice(bs, i, i + 2, [c], end);
  }

  lemma MarkKeepsLaid(bs: seq<Block>, end: int, i: nat)
    requires Laid(bs, end) && i < |bs|
    ensures Laid(Mark(bs, i), end)
  {
    var mid := [bs[i].(free := true)];
    FlagKeepsWellFormed(Heap(bs, end), i, true);
    assert Mark(bs, i) == bs[..i] + mid + bs[i + 1..];
    TilesReplace(bs, i, i + 1, mid, HEAP_START, end);
  }

  lemma CoalesceKeepsLaid(bs: seq<Block>, end: int, i: nat)
    requires Laid(bs, end) && i < |bs|
    ensures Coalesce(bs, i) != [] && Laid(Coalesce(bs, i), end)
  {
    MarkKeepsLaid(bs, end, i);
    var m := Mark(bs, i);
    var n := MergeNext(m, i);
    if n != m { MergeKeepsLaid(m, end, i); }
    if 0 < i && n[i - 1].free { MergeKeepsLaid(n, end, i - 1); }
  }

  /** No two neighbours are free, setting aside the pairs around block i. */
  ghost predicate CoalescedAround(bs: seq<Block>, i: nat) {
    forall j, k :: 0 <= j && k == j + 1 && k < |bs| && j != i && k != i ==> !(bs[j].free && bs[k].free)
  }

  lemma AbsorbNext(bs: seq<Block>, i: nat, c: Block)
    requires CoalescedAround(bs, i) && i + 1 < |bs| && bs[i + 1].free
    ensures var r := bs[..i] + [c] + bs[i + 2..];
      CoalescedAround(r, i) && (i + 1 < |r| ==> !r[i + 1].free)
  {
    var r := bs[..i] + [c] + bs[i + 2..];
    assert forall k :: i + 1 <= k < |r| ==> r[k] == bs[k + 1];
  }

  lemma AbsorbIntoPrev(bs: seq<Block>, i: nat, c: Block)
    requires CoalescedAround(bs, i) && 0 < i < |bs| && bs[i - 1].free && (i + 1 < |bs| ==> !bs[i + 1].free)
    ensures Coalesced(bs[..i - 1] + [c] + bs[i + 1..])
  {
    var r := bs[..i - 1] + [c] + bs[i + 1..];
    assert forall k :: i <= k < |r| ==> r[k] == bs[k + 1];
  }

  lemma MergeNextCoalesces(m: seq<Block>, end: int, i: nat)
    requires Laid(m, end) && CoalescedAround(m, i) && i < |m|
    ensures var n := MergeNext(m, i);
      && Laid(n, end) && i < |n| && CoalescedAround(n, i) && (i + 1 < |n| ==> !n[i + 1].free)
      && n[..i] == m[..i] && n[i].free == m[i].free
  {
    if i + 1 < |m| && m[i + 1].free {
      MergeIsExact(m, end, i);
      MergeKeepsLaid(m, end, i);
      var c := Joined(m[i], m[i + 1]);
      AbsorbNext(m, i, c);
      var n := m[..i] + [c] + m[i + 2..];
      assert MergeNext(m, i) == n && n[..i] == m[..i];
    }
  }

  lemma MergePrevCoalesces(n: seq<Block>, end: int, i: nat)
    requires Laid(n, end) && CoalescedAround(n, i) && i < |n| && (i + 1 < |n| ==> !n[i + 1].free)
    ensures Coalesced(MergePrev(n, i))
  {
    if 0 < i && n[i - 1].free {
      MergeIsExact(n, end, i - 1);
      var c := Joined(n[i - 1], n[i]);
      AbsorbIntoPrev(n, i, c);
      assert MergePrev(n, i) == n[..i - 1] + [c] + n[i + 1..];
    }
  }

  /** Coalescing leaves no two free neighbours. */
  lemma CoalesceCoalesces(bs: seq<Block>, end: int, i: nat)
    requires Laid(bs, end) && Coalesced(bs) && i < |bs|
    ensures Coalesced(Coalesce(bs, i))
  {
    MarkKeepsLaid(bs, end, i);
    MergeNextCoalesces(Mark(bs, i), end, i);
    MergePrevCoalesces(MergeNext(Mark(bs, i), i), end, i);
  }

  lemma DropLastKeepsLaid(bs: seq<Block>, end: int)
    requires Laid(bs, end) && 2 <= |bs|
    ensures var k := |bs| - 1; Laid(bs[..k], bs[k].addr)
  {
    var k := |bs| - 1;
    assert bs[..k] + [bs[k]] == bs;
    TilesConcat(bs[..k], [bs[k]], HEAP_START, end);
    assert BlockOk(bs[k], end);
    forall j | 0 <= j < k ensures BlockOk(bs[..k][j], bs[k].addr) {
      assert BlockOk(bs[j], end);
    }
  }

  lemma TrimKeepsInv(bs: seq<Block>, end: int)
    requires Laid(bs, end) && Coalesced(bs) && bs != []
    ensures Inv(Trim(Intended, bs, end))
  {
    if bs[|bs| - 1].free && |bs| > 1 { DropLastKeepsLaid(bs, end); }
  }

  /** In the intended layout kfree keeps every invariant, whatever it is given. */
  lemma ReleaseKeepsInv(h: Heap, ptr: int)
    requires Inv(h)
    ensures Inv(Release(Intended, h, ptr))
  {
    var i := LiveIndex(h.blocks, ptr);
    if i < |h.blocks| {
      CoalesceKeepsLaid(h.blocks, h.end, i);
      CoalesceCoalesces(h.blocks, h.end, i);
      TrimKeepsInv(Coalesce(h.blocks, i), h.end);
    }
  }
}

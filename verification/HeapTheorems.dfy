/** What callers of the allocator rely on, over single calls and whole runs. */
module HeapTheorems {
  import opened Words
  import opened HeapSpec
  import opened HeapLaws

  // ----- which block kmalloc answers with

  /** The rounding of a request: up to the next multiple of eight, and below the
      request itself when that overflows. */
  lemma RoundedUp(size: int, n: int)
    requires 0 < size < TWO32 && size <= n < size + 8 && n % 8 == 0
    ensures size <= TWO32 - 8 ==> AlignUp(size) == n && 8 <= n < TWO32
    ensures size > TWO32 - 8 ==> AlignUp(size) < size
  {
    var k := n / 8;
    assert n == 8 * k;
    if size <= TWO32 - 8 {
      assert 8 * k <= size + 7 < 8 * k + 8;
    }
  }

  lemma EarlyLimitIs(end: int, n: int)
    requires HEAP_START <= end < HEAP_END && 0 <= n < TWO32
    ensures n <= EarlyLimit(end) <==> n <= HEAP_END - end - 24 || (HEAP_END - 24 < end && n <= TWO32 + HEAP_END - end - 24)
  {
    assert HEAP_END - 24 < end ==> W32(HEAP_END - end - 24) == TWO32 + HEAP_END - end - 24;
  }

  /** kmalloc's answer, for every request of `size` bytes, n being that size
      rounded up to a multiple of eight: the lowest-address free block of at least n
      bytes, else a new block at the top, else NULL with the heap untouched. Behind
      the top there must be room below the limit, in exact arithmetic; or less than
      24 bytes are left there and the request wraps around to an address below it. */
  lemma AnswerIsDetermined(l: Layout, h: Heap, size: int, n: int)
    requires WellFormed(h) && 0 <= size < TWO32 && size <= n < size + 8 && n % 8 == 0
    ensures var a, bs := Allocate(l, h, size), h.blocks;
      var fit := exists i :: 0 <= i < |bs| && bs[i].free && bs[i].size >= n;
      var room := h.end + 20 + n + (if bs == [] && l.Coded? then 0 else 4) < HEAP_END;
      var admitted := 0 < size <= TWO32 - 8 && (n <= HEAP_END - h.end - 24 || HEAP_END - 24 < h.end);
      var wraps := HEAP_END - 24 < h.end && TWO32 - 24 <= n && h.end + 24 + n - TWO32 < HEAP_END;
      && (a.ptr != 0 <==> admitted && (fit || room || wraps))
      && (a.ptr == 0 ==> a.heap == h)
      && (a.ptr != 0 && fit ==>
           (exists i :: 0 <= i < |bs| && bs[i].free && bs[i].size >= n && a.ptr == bs[i].addr + 20)
           && forall j :: 0 <= j < |bs| && bs[j].free && bs[j].size >= n ==> a.ptr <= bs[j].addr + 20)
      && (a.ptr != 0 && !fit ==> a.ptr == h.end + 20)
  {
    var i := FirstFit(h.blocks, n);
    if size > 0 { RoundedUp(size, n); }
    if 0 < size <= TWO32 - 8 { EarlyLimitIs(h.end, n); }
    if 0 < size <= TWO32 - 8 && n <= EarlyLimit(h.end) { AdmittedAnswer(l, h, n, size, i); }
    assert i < |h.blocks| ==> Fits(h.blocks[i], n) && BlockOk(h.blocks[i], h.end);
    assert forall j :: 0 <= j < |h.blocks| ==> (Fits(h.blocks[j], n) <==> h.blocks[j].free && h.blocks[j].size >= n);
  }

  lemma AdmittedAnswer(l: Layout, h: Heap, n: int, size: int, i: nat)
    requires WellFormed(h) && 0 < size <= TWO32 - 8 && AlignUp(size) == n && size <= n < TWO32 && 8 <= n && n % 8 == 0
    requires n <= EarlyLimit(h.end) && i == FirstFit(h.blocks, n)
    ensures var a := Allocate(l, h, size);
      if i < |h.blocks| then a.ptr == h.blocks[i].addr + 20 && forall j :: i <= j < |h.blocks| ==> h.blocks[i].addr <= h.blocks[j].addr
      else if h.end + 20 + n + (if h.blocks == [] && l.Coded? then 0 else 4) < HEAP_END || BoundWraps(h.end, n)
        then a.ptr == h.end + 20
      else a == Answer(h, 0)
  {
    if i < |h.blocks| {
      assert BlockOk(h.blocks[i], h.end);
    } else if h.blocks != [] {
      AppendBound(h.end, n);
    } else {
      FirstBounds(l, n);
    }
  }

  /** What the answer does to the list: the block taken is cut in two when it can
      give n bytes, a header, a guard word and eight bytes more, and is used whole
      otherwise; a block put on top has n bytes; nothing else changes. */
  lemma AllocationOnList(l: Layout, h: Heap, size: int, n: int, i: nat)
    requires WellFormed(h) && 0 <= size < TWO32 && size <= n < size + 8 && n % 8 == 0 && i <= |h.blocks|
    requires i < |h.blocks| ==> h.blocks[i].free && h.blocks[i].size >= n
    requires forall j :: 0 <= j < i ==> !(h.blocks[j].free && h.blocks[j].size >= n)
    requires Allocate(l, h, size).ptr != 0
    ensures var g, bs := Allocate(l, h, size).heap, h.blocks;
      if i < |bs| && bs[i].size >= n + 32 then
        && g.end == h.end
        && var rest := Block(bs[i].addr + 20 + n + (if l.Coded? then 0 else 4), bs[i].size - n - 24, true);
           g.blocks == bs[..i] + [Block(bs[i].addr, n, false), rest] + bs[i + 1..]
      else if i < |bs| then
        g.end == h.end && g.blocks == bs[i := Block(bs[i].addr, bs[i].size, false)]
      else
        && g.blocks == bs + [Block(h.end, n, false)]
        && var top := h.end + 20 + n + (if bs == [] && l.Coded? then 0 else 4);
           g.end == if top < HEAP_END then top else top - TWO32
  {
    RoundedUp(size, n);
    EarlyLimitIs(h.end, n);
    FirstFitIs(h.blocks, n, i);
    if i < |h.blocks| {
      var b := h.blocks[i];
      assert BlockOk(b, h.end);
      if b.size >= n + 32 { SplitHalves(l, b, n, h.end); }
    } else if h.blocks != [] {
      AppendBound(h.end, n);
    } else {
      FirstBounds(l, n);
    }
  }

  // ----- live blocks

  ghost function Live(bs: seq<Block>): set<Block> {
    set b | b in bs && !b.free
  }

  lemma LiveConcat(a: seq<Block>, b: seq<Block>)
    ensures Live(a + b) == Live(a) + Live(b)
  {
  }

  lemma LiveSplice(bs: seq<Block>, i: nat, k: nat, mid: seq<Block>)
    requires i <= k <= |bs|
    ensures Live(bs) == Live(bs[..i]) + Live(bs[i..k]) + Live(bs[k..])
    ensures Live(bs[..i] + mid + bs[k..]) == Live(bs[..i]) + Live(mid) + Live(bs[k..])
  {
    assert bs == bs[..i] + bs[i..k] + bs[k..];
    LiveConcat(bs[..i] + bs[i..k], bs[k..]);
    LiveConcat(bs[..i], bs[i..k]);
    LiveConcat(bs[..i] + mid, bs[k..]);
    LiveConcat(bs[..i], mid);
  }

  lemma LiveIndexOf(h: Heap, k: nat)
    requires WellFormed(h) && k < |h.blocks| && !h.blocks[k].free
    ensures LiveIndex(h.blocks, h.blocks[k].addr + HEADER) == k
  {
    var i := LiveIndex(h.blocks, h.blocks[k].addr + HEADER);
    assert BlockOk(h.blocks[i], h.end);
    assert i >= k;
  }

  lemma ReplaceFree(bs: seq<Block>, i: nat, mid: seq<Block>, b: Block)
    requires i < |bs| && bs[i].free && Live(mid) == {b}
    ensures Live(bs[..i] + mid + bs[i + 1..]) == Live(bs) + {b}
  {
    LiveSplice(bs, i, i + 1, mid);
    assert bs[i..i + 1] == [bs[i]] && Live([bs[i]]) == {};
  }

  lemma LiveOne(b: Block, rest: seq<Block>)
    requires !b.free && Live(rest) == {}
    ensures Live([b] + rest) == {b}
  {
    assert ([b] + rest)[0] == b;
  }

  lemma TakeLive(l: Layout, h: Heap, i: nat, n: int)
    requires i < |h.blocks| && Fits(h.blocks[i], n)
    ensures var g := Take(l, h, i, n).blocks;
      && i < |g| && !g[i].free && g[i].addr == h.blocks[i].addr && n <= g[i].size
      && Live(g) == Live(h.blocks) + {g[i]}
  {
    var b := h.blocks[i];
    if b.size >= W32(n + HEADER + GUARD + MIN_BLOCK) {
      LiveOne(Left(b, n), [Right(l, b, n)]);
      ReplaceFree(h.blocks, i, [Left(b, n)] + [Right(l, b, n)], Left(b, n));
      assert [Left(b, n)] + [Right(l, b, n)] == [Left(b, n), Right(l, b, n)];
    } else {
      var c := b.(free := false);
      LiveOne(c, []);
      assert [c] + [] == [c];
      ReplaceFree(h.blocks, i, [c], c);
      assert h.blocks[i := c] == h.blocks[..i] + [c] + h.blocks[i + 1..];
    }
  }

  lemma AppendLive(h: Heap, b: Block)
    requires !b.free
    ensures Live(h.blocks + [b]) == Live(h.blocks) + {b}
  {
    LiveConcat(h.blocks, [b]);
    assert Live([b]) == {b} by { assert [b][0] == b; }
  }

  lemma FreeIsNotLive(h: Heap, i: nat)
    requires WellFormed(h) && i < |h.blocks| && h.blocks[i].free
    ensures h.blocks[i].addr !in LiveAddrs(h.blocks)
  {
    forall k | 0 <= k < |h.blocks| && k != i ensures h.blocks[k].addr != h.blocks[i].addr {
      assert BlockOk(h.blocks[k], h.end) && BlockOk(h.blocks[i], h.end);
    }
  }

  lemma TopIsNotLive(h: Heap)
    requires WellFormed(h)
    ensures h.end !in LiveAddrs(h.blocks)
  {
    assert forall k :: 0 <= k < |h.blocks| ==> BlockOk(h.blocks[k], h.end);
  }

  /** The pointer that kmalloc hands out named no live block before. */
  lemma AllocateIsNew(l: Layout, h: Heap, size: int)
    requires WellFormed(h) && Allocate(l, h, size).ptr != 0
    ensures LiveIndex(h.blocks, Allocate(l, h, size).ptr) == |h.blocks|
  {
    var i := FirstFit(h.blocks, AlignUp(size));
    TopIsNotLive(h);
    if i < |h.blocks| { FreeIsNotLive(h, i); }
    NotLive(h.blocks, h.blocks, Allocate(l, h, size).ptr);
  }

  lemma TakenLive(l: Layout, h: Heap, i: nat, n: int)
    requires WellFormed(h) && i < |h.blocks| && Fits(h.blocks[i], n) && 8 <= n && n % 8 == 0
    ensures var g := Take(l, h, i, n).blocks; var k := LiveIndex(g, h.blocks[i].addr + HEADER);
      k < |g| && n <= g[k].size && Live(g) == Live(h.blocks) + {g[k]}
  {
    TakenIsLive(l, h, i, n);
    TakeLive(l, h, i, n);
  }

  /** A successful kmalloc adds exactly one live block, at least as large as
      requested, under a pointer that was not live, and keeps every other live
      block as it was. */
  lemma AllocateLive(l: Layout, h: Heap, size: int)
    requires WellFormed(h) && 0 <= size < TWO32 && !BoundWraps(h.end, AlignUp(size))
    requires Allocate(l, h, size).ptr != 0
    ensures var a := Allocate(l, h, size);
      var k := LiveIndex(a.heap.blocks, a.ptr);
      && LiveIndex(h.blocks, a.ptr) == |h.blocks|
      && k < |a.heap.blocks| && size <= a.heap.blocks[k].size
      && Live(a.heap.blocks) == Live(h.blocks) + {a.heap.blocks[k]}
  {
    var n, a := AlignUp(size), Allocate(l, h, size);
    AlignUpRounds(size);
    AllocateIsNew(l, h, size);
    var i := FirstFit(h.blocks, n);
    if h.blocks != [] && i < |h.blocks| {
      TakenLive(l, h, i, n);
    } else {
      AllocateKeepsWellFormed(l, h, size);
      var b := Block(h.end, n, false);
      AppendLive(h, b);
      assert a.heap.blocks == h.blocks + [b];
      LiveIndexOf(a.heap, |h.blocks|);
    }
  }

  /** Bytes [ptr, ptr + size) end inside the heap and overlap no header, payload
      or guard word of a block other than block k. */
  ghost predicate OwnBytes(h: Heap, k: nat, ptr: int, size: int) {
    && HEAP_START + HEADER <= ptr && ptr + size <= h.end < HEAP_END && ptr % 4 == 0
    && forall j :: 0 <= j < |h.blocks| && j != k ==> ptr + size <= h.blocks[j].addr || PayloadEnd(h.blocks[j]) + GUARD <= ptr
  }

  /** The bytes handed out are the caller's own exactly when the request does not
      wrap. */
  lemma AllocationIsDisjoint(l: Layout, h: Heap, size: int)
    requires WellFormed(h) && 0 <= size < TWO32
    requires Allocate(l, h, size).ptr != 0
    ensures var a := Allocate(l, h, size);
      OwnBytes(a.heap, LiveIndex(a.heap.blocks, a.ptr), a.ptr, size) <==> !BoundWraps(h.end, AlignUp(size))
  {
    var a := Allocate(l, h, size);
    if BoundWraps(h.end, AlignUp(size)) {
      WrapReachesAppend(l, h, size);
      WrapPassesTop(h.end, size);
    } else {
      AllocateKeepsWellFormed(l, h, size);
      AllocateLive(l, h, size);
      PayloadIsDisjoint(a.heap, LiveIndex(a.heap.blocks, a.ptr), size);
    }
  }

  lemma WrapPassesTop(end: int, size: int)
    requires HEAP_START <= end < HEAP_END && 0 <= size < TWO32 && BoundWraps(end, AlignUp(size))
    ensures end + HEADER + size > HEAP_END
  {
    assert AlignUp(size) <= size + 7;
  }

  lemma PayloadIsDisjoint(h: Heap, k: nat, size: int)
    requires WellFormed(h) && k < |h.blocks| && 0 <= size <= h.blocks[k].size
    ensures OwnBytes(h, k, h.blocks[k].addr + HEADER, size)
  {
    assert BlockOk(h.blocks[k], h.end);
  }

  // ----- kfree undoes kmalloc

  lemma ExactUndo(l: Layout, h: Heap, i: nat)
    requires WellFormed(h) && Tidy(h.blocks) && i < |h.blocks| && h.blocks[i].free
    ensures var g := h.blocks[i := h.blocks[i].(free := false)];
      Trim(l, Coalesce(g, i), h.end) == h
  {
    var g := h.blocks[i := h.blocks[i].(free := false)];
    assert Mark(g, i) == h.blocks;
  }

  /** Merging the two halves of a split gives the block back. */
  lemma MergeHalves(l: Layout, a: seq<Block>, b: Block, c: seq<Block>, n: int, end: int)
    requires BlockOk(b, end) && end < HEAP_END && b.free && 8 <= n && n % 8 == 0
    requires b.size >= n && b.size >= W32(n + HEADER + GUARD + MIN_BLOCK)
    requires c != [] ==> PayloadEnd(b) <= c[0].addr
    ensures Merge(a + [Left(b, n).(free := true), Right(l, b, n)] + c, |a|) == a + [b] + c
  {
    SplitHalves(l, b, n, end);
    var left, right := Left(b, n).(free := true), Right(l, b, n);
    assert Joined(left, right) == b;
    var m := a + [left, right] + c;
    assert m[|a| + 2..] == c && m[..|a|] == a;
    assert StampHead(c, PayloadEnd(b)) == c;
  }

  lemma NothingElseMerges(l: Layout, h: Heap, i: nat)
    requires Tidy(h.blocks) && i < |h.blocks| && h.blocks[i].free
    ensures Trim(l, MergePrev(h.blocks, i), h.end) == h
  {
  }

  lemma FreeThenMergeNext(a: seq<Block>, x: Block, y: Block, c: seq<Block>)
    requires y.free
    ensures MergeNext(Mark(a + [x, y] + c, |a|), |a|) == Merge(a + [x.(free := true), y] + c, |a|)
  {
    assert Mark(a + [x, y] + c, |a|) == a + [x.(free := true), y] + c;
  }

  lemma SplitThenMerge(l: Layout, h: Heap, i: nat, n: int)
    requires i < |h.blocks| && BlockOk(h.blocks[i], h.end) && h.end < HEAP_END
    requires i + 1 < |h.blocks| ==> PayloadEnd(h.blocks[i]) <= h.blocks[i + 1].addr
    requires Fits(h.blocks[i], n) && 8 <= n && n % 8 == 0
    requires h.blocks[i].size >= W32(n + HEADER + GUARD + MIN_BLOCK)
    ensures MergeNext(Mark(Take(l, h, i, n).blocks, i), i) == h.blocks
  {
    var bs, b := h.blocks, h.blocks[i];
    var a, c := bs[..i], bs[i + 1..];
    assert bs == a + [b] + c && (c != [] ==> c[0] == bs[i + 1]);
    FreeThenMergeNext(a, Left(b, n), Right(l, b, n), c);
    MergeHalves(l, a, b, c, n, h.end);
  }

  lemma SplitUndo(l: Layout, h: Heap, i: nat, n: int)
    requires WellFormed(h) && Tidy(h.blocks) && i < |h.blocks| && Fits(h.blocks[i], n) && 8 <= n && n % 8 == 0
    requires h.blocks[i].size >= W32(n + HEADER + GUARD + MIN_BLOCK)
    ensures Trim(l, Coalesce(Take(l, h, i, n).blocks, i), h.end) == h
  {
    SplitThenMerge(l, h, i, n);
    NothingElseMerges(l, h, i);
  }

  lemma AppendUndo(l: Layout, h: Heap, n: int)
    requires WellFormed(h) && Tidy(h.blocks) && h.blocks != []
    ensures var g := h.blocks + [Block(h.end, n, false)];
      Trim(l, Coalesce(g, |h.blocks|), h.end + HEADER + n + GUARD)
        == Heap(if l.Intended? then h.blocks else h.blocks + [Block(h.end, n, true)], h.end)
  {
    var k := |h.blocks|;
    var g := h.blocks + [Block(h.end, n, false)];
    var m := h.blocks + [Block(h.end, n, true)];
    assert Mark(g, k) == m;
    assert m[k - 1] == h.blocks[k - 1];
    assert m[..k] == h.blocks;
  }

  lemma TakenIsLive(l: Layout, h: Heap, i: nat, n: int)
    requires WellFormed(h) && i < |h.blocks| && Fits(h.blocks[i], n) && 8 <= n && n % 8 == 0
    ensures var g := Take(l, h, i, n);
      g.end == h.end && i < |g.blocks| && LiveIndex(g.blocks, h.blocks[i].addr + HEADER) == i
  {
    TakeKeepsWellFormed(l, h, i, n);
    TakeLive(l, h, i, n);
    LiveIndexOf(Take(l, h, i, n), i);
  }

  lemma ReleaseAt(l: Layout, g: Heap, i: nat, ptr: int)
    requires i < |g.blocks| && LiveIndex(g.blocks, ptr) == i
    ensures Release(l, g, ptr) == Trim(l, Coalesce(g.blocks, i), g.end)
  {
  }

  /** The ways kmalloc answers from the list, each followed by kfree. */
  lemma TakeUndo(l: Layout, h: Heap, i: nat, n: int)
    requires WellFormed(h) && Tidy(h.blocks) && i < |h.blocks| && Fits(h.blocks[i], n) && 8 <= n && n % 8 == 0
    ensures Release(l, Take(l, h, i, n), h.blocks[i].addr + HEADER) == h
  {
    TakenIsLive(l, h, i, n);
    ReleaseAt(l, Take(l, h, i, n), i, h.blocks[i].addr + HEADER);
    if h.blocks[i].size >= W32(n + HEADER + GUARD + MIN_BLOCK) { SplitUndo(l, h, i, n); }
    else { ExactUndo(l, h, i); }
  }

  lemma TopUndo(l: Layout, h: Heap, n: int)
    requires WellFormed(h) && Tidy(h.blocks) && h.blocks != [] && !BoundWraps(h.end, n)
    requires 8 <= n < TWO32 && n % 8 == 0 && n <= EarlyLimit(h.end) && Append(h, n).ptr != 0
    ensures var a := Append(h, n); Release(l, a.heap, a.ptr) == h <==> l.Intended?
  {
    var k := |h.blocks|;
    AppendBound(h.end, n);
    AppendKeepsWellFormed(h, n);
    assert Append(h, n).heap.blocks[k] == Block(h.end, n, false);
    LiveIndexOf(Append(h, n).heap, k);
    AppendUndo(l, h, n);
    assert |h.blocks + [Block(h.end, n, true)]| != |h.blocks|;
  }

  /** kmalloc then kfree of its answer is the identity on block list and top,
      through first block, exact reuse, split and append. As coded it is the
      identity exactly when kmalloc did not append. */
  lemma FreeUndoesAllocate(l: Layout, h: Heap, size: int)
    requires WellFormed(h) && Tidy(h.blocks) && 0 <= size < TWO32 && !BoundWraps(h.end, AlignUp(size))
    requires Allocate(l, h, size).ptr != 0
    ensures var a := Allocate(l, h, size);
      Release(l, a.heap, a.ptr) == h <==>
      l.Intended? || h.blocks == [] || exists i :: 0 <= i < |h.blocks| && Fits(h.blocks[i], AlignUp(size))
  {
    var n, a := AlignUp(size), Allocate(l, h, size);
    AlignUpRounds(size);
    var i := FirstFit(h.blocks, n);
    if h.blocks == [] {
      AllocateKeepsWellFormed(l, h, size);
      LiveIndexOf(a.heap, 0);
    } else if i < |h.blocks| {
      TakeUndo(l, h, i, n);
    } else {
      TopUndo(l, h, n);
    }
  }

  // ----- what kfree does to the live blocks

  lemma MarkLive(bs: seq<Block>, end: int, i: nat)
    requires WellFormed(Heap(bs, end)) && i < |bs|
    ensures Live(Mark(bs, i)) == Live(bs) - {bs[i]}
  {
    var m := Mark(bs, i);
    forall k | 0 <= k < |bs| && k != i ensures bs[k] != bs[i] && m[k] == bs[k] {
      assert BlockOk(bs[k], end) && BlockOk(bs[i], end);
    }
    forall b | b in Live(bs) - {bs[i]} ensures b in Live(m) {
      var k :| 0 <= k < |bs| && bs[k] == b;
      assert m[k] == b;
    }
  }

  /** Two free blocks replaced by one. */
  lemma FreePairLive(bs: seq<Block>, i: nat, c: Block)
    requires i + 1 < |bs| && bs[i].free && bs[i + 1].free && c.free
    ensures Live(bs[..i] + [c] + bs[i + 2..]) == Live(bs)
  {
    LiveSplice(bs, i, i + 2, [c]);
    assert bs[i..i + 2] == [bs[i], bs[i + 1]];
    NoneLive(bs[i..i + 2]);
    NoneLive([c]);
  }

  lemma NoneLive(bs: seq<Block>)
    requires forall i :: 0 <= i < |bs| ==> bs[i].free
    ensures Live(bs) == {}
  {
  }

  lemma MergeLive(bs: seq<Block>, end: int, i: nat)
    requires Laid(bs, end) && i + 1 < |bs| && bs[i].free && bs[i + 1].free
    ensures Live(Merge(bs, i)) == Live(bs)
  {
    MergeIsExact(bs, end, i);
    FreePairLive(bs, i, Joined(bs[i], bs[i + 1]));
  }

  lemma CoalesceLive(bs: seq<Block>, end: int, i: nat)
    requires Laid(bs, end) && i < |bs|
    ensures Live(Coalesce(bs, i)) == Live(bs) - {bs[i]}
  {
    MarkLive(bs, end, i);
    MarkKeepsLaid(bs, end, i);
    var m := Mark(bs, i);
    var n := MergeNext(m, i);
    if i + 1 < |m| && m[i + 1].free {
      MergeLive(m, end, i);
      MergeKeepsLaid(m, end, i);
    }
    if 0 < i && n[i - 1].free { MergeLive(n, end, i - 1); }
  }

  lemma TrimLive(bs: seq<Block>, end: int)
    requires bs != []
    ensures Live(Trim(Intended, bs, end).blocks) == Live(bs)
  {
    var k := |bs| - 1;
    if bs[k].free {
      assert bs == bs[..k] + [bs[k]] && Live([bs[k]]) == {};
      LiveConcat(bs[..k], [bs[k]]);
    }
  }

  /** kfree retires exactly the block it is given; no other live block moves,
      shrinks or disappears. */
  lemma ReleaseLive(h: Heap, ptr: int)
    requires Inv(h) && LiveIndex(h.blocks, ptr) < |h.blocks|
    ensures Live(Release(Intended, h, ptr).blocks) == Live(h.blocks) - {h.blocks[LiveIndex(h.blocks, ptr)]}
  {
    var i := LiveIndex(h.blocks, ptr);
    CoalesceLive(h.blocks, h.end, i);
    CoalesceKeepsLaid(h.blocks, h.end, i);
    TrimLive(Coalesce(h.blocks, i), h.end);
  }

  /** kfree of a used block of a sound heap, written out: it and the free blocks
      right before and right behind it, from lo to hi, become one free block c over
      all their bytes, and when that would be the last block the top moves down to
      its place instead. */
  lemma ReleaseOnList(h: Heap, i: nat, lo: nat, hi: nat, c: Block)
    requires Inv(h) && i < |h.blocks| && !h.blocks[i].free
    requires lo == if 0 < i && h.blocks[i - 1].free then i - 1 else i
    requires hi == if i + 1 < |h.blocks| && h.blocks[i + 1].free then i + 1 else i
    requires c == Block(h.blocks[lo].addr, h.blocks[hi].addr + h.blocks[hi].size - h.blocks[lo].addr, true)
    ensures Release(Intended, h, h.blocks[i].addr + 20) ==
      if hi + 1 == |h.blocks| then Heap(h.blocks[..lo], h.blocks[lo].addr)
      else Heap(h.blocks[..lo] + [c] + h.blocks[hi + 1..], h.end)
  {
    ReleaseVia(h, i, lo, hi, c);
    TrimAround(h.blocks, lo, hi, c, h.end);
  }

  lemma ReleaseVia(h: Heap, i: nat, lo: nat, hi: nat, c: Block)
    requires WellFormed(h) && Tiled(h) && i < |h.blocks| && !h.blocks[i].free
    requires lo == if 0 < i && h.blocks[i - 1].free then i - 1 else i
    requires hi == if i + 1 < |h.blocks| && h.blocks[i + 1].free then i + 1 else i
    requires c == Block(h.blocks[lo].addr, h.blocks[hi].addr + h.blocks[hi].size - h.blocks[lo].addr, true)
    ensures Release(Intended, h, h.blocks[i].addr + 20)
      == Trim(Intended, h.blocks[..lo] + [c] + h.blocks[hi + 1..], h.end)
  {
    LiveIndexOf(h, i);
    ReleaseAt(Intended, h, i, h.blocks[i].addr + HEADER);
    CoalesceOnList(h.blocks, h.end, i, lo, hi, c);
  }

  lemma TrimAround(bs: seq<Block>, lo: nat, hi: nat, c: Block, end: int)
    requires lo <= hi < |bs| && bs[0].addr == HEAP_START && (hi + 1 < |bs| ==> !bs[|bs| - 1].free)
    requires c.free && c.addr == bs[lo].addr
    ensures Trim(Intended, bs[..lo] + [c] + bs[hi + 1..], end)
      == if hi + 1 == |bs| then Heap(bs[..lo], bs[lo].addr) else Heap(bs[..lo] + [c] + bs[hi + 1..], end)
  {
    var r := bs[..lo] + [c] + bs[hi + 1..];
    assert hi + 1 == |bs| ==> r[..|r| - 1] == bs[..lo];
  }

  lemma CoalesceOnList(bs: seq<Block>, end: int, i: nat, lo: nat, hi: nat, c: Block)
    requires Laid(bs, end) && i < |bs|
    requires lo == if 0 < i && bs[i - 1].free then i - 1 else i
    requires hi == if i + 1 < |bs| && bs[i + 1].free then i + 1 else i
    requires c == Block(bs[lo].addr, bs[hi].addr + bs[hi].size - bs[lo].addr, true)
    ensures Coalesce(bs, i) == bs[..lo] + [c] + bs[hi + 1..]
  {
    var d := Block(bs[i].addr, bs[hi].addr + bs[hi].size - bs[i].addr, true);
    var n := bs[..i] + [d] + bs[hi + 1..];
    NextOnList(bs, end, i, hi, d);
    Pieces(bs, n, i, lo, hi, d, c);
    PrevOnList(n, end, i, lo, c);
  }

  /** Two steps of putting one block for several, as one. */
  lemma Pieces(bs: seq<Block>, n: seq<Block>, i: nat, lo: nat, hi: nat, d: Block, c: Block)
    requires lo <= i <= hi < |bs| && n == bs[..i] + [d] + bs[hi + 1..]
    ensures n[..lo] + [c] + n[i + 1..] == bs[..lo] + [c] + bs[hi + 1..]
    ensures n[i] == d && forall k :: 0 <= k < i ==> n[k] == bs[k]
  {
    assert n[..lo] == bs[..lo] && n[i + 1..] == bs[hi + 1..];
  }

  lemma NextOnList(bs: seq<Block>, end: int, i: nat, hi: nat, d: Block)
    requires Laid(bs, end) && i < |bs|
    requires hi == if i + 1 < |bs| && bs[i + 1].free then i + 1 else i
    requires d == Block(bs[i].addr, bs[hi].addr + bs[hi].size - bs[i].addr, true)
    ensures var n := bs[..i] + [d] + bs[hi + 1..];
      MergeNext(Mark(bs, i), i) == n && Laid(n, end)
  {
    MarkKeepsLaid(bs, end, i);
    var m := Mark(bs, i);
    if hi > i {
      MergeSpan(m, end, i, d);
      MergeKeepsLaid(m, end, i);
      assert m[..i] == bs[..i] && m[i + 2..] == bs[i + 2..];
    }
  }

  lemma PrevOnList(n: seq<Block>, end: int, i: nat, lo: nat, c: Block)
    requires Laid(n, end) && i < |n| && n[i].free
    requires lo == if 0 < i && n[i - 1].free then i - 1 else i
    requires c == Block(n[lo].addr, n[i].addr + n[i].size - n[lo].addr, true)
    ensures MergePrev(n, i) == n[..lo] + [c] + n[i + 1..]
  {
    if lo < i { MergeSpan(n, end, lo, c); } else { InPlace(n, i); }
  }

  lemma MergeSpan(n: seq<Block>, end: int, k: nat, c: Block)
    requires Laid(n, end) && k + 1 < |n|
    requires c == Block(n[k].addr, n[k + 1].addr + n[k + 1].size - n[k].addr, n[k].free)
    ensures Merge(n, k) == n[..k] + [c] + n[k + 2..]
  {
    MergeIsExact(n, end, k);
    TilesNext(n, k, HEAP_START, end);
  }

  lemma InPlace(n: seq<Block>, i: nat)
    requires i < |n|
    ensures n == n[..i] + [n[i]] + n[i + 1..]
  {
  }

  /** Addresses of the live blocks. */
  ghost function LiveAddrs(bs: seq<Block>): set<int> {
    set k | 0 <= k < |bs| && !bs[k].free :: bs[k].addr
  }

  lemma MergeRevivesNothing(bs: seq<Block>, i: nat)
    requires i + 1 < |bs|
    ensures LiveAddrs(Merge(bs, i)) <= LiveAddrs(bs)
  {
    var r := Merge(bs, i);
    forall k | 0 <= k < |r| && !r[k].free ensures r[k].addr in LiveAddrs(bs) {
      var j := if k <= i then k else k + 1;
      assert r[k].addr == bs[j].addr && !bs[j].free;
    }
  }

  lemma CoalesceRevivesNothing(bs: seq<Block>, i: nat)
    requires i < |bs|
    ensures LiveAddrs(Coalesce(bs, i)) <= LiveAddrs(Mark(bs, i))
  {
    var m := Mark(bs, i);
    var n := MergeNext(m, i);
    if n != m { MergeRevivesNothing(m, i); }
    if 0 < i && n[i - 1].free { MergeRevivesNothing(n, i - 1); }
  }

  lemma MarkRetires(h: Heap, i: nat)
    requires WellFormed(h) && i < |h.blocks|
    ensures h.blocks[i].addr !in LiveAddrs(Mark(h.blocks, i))
  {
    forall k | 0 <= k < |h.blocks| && k != i ensures h.blocks[k].addr != h.blocks[i].addr {
      assert BlockOk(h.blocks[k], h.end) && BlockOk(h.blocks[i], h.end);
    }
  }

  /** On the block list a second kfree of the same pointer finds nothing to free.
      Whether the checks on memory words refuse the pointer is another question:
      KernelHeap.Kfree answers it. */
  lemma ReleaseTwice(l: Layout, h: Heap, ptr: int)
    requires WellFormed(h)
    ensures var g := Release(l, h, ptr); Release(l, g, ptr) == g
  {
    var i, g := LiveIndex(h.blocks, ptr), Release(l, h, ptr);
    if i < |h.blocks| {
      MarkRetires(h, i);
      CoalesceRevivesNothing(h.blocks, i);
      NotLive(g.blocks, Coalesce(h.blocks, i), ptr);
    }
  }

  lemma NotLive(bs: seq<Block>, all: seq<Block>, ptr: int)
    requires bs <= all && ptr - HEADER !in LiveAddrs(all)
    ensures LiveIndex(bs, ptr) == |bs|
  {
    forall j | 0 <= j < |bs| ensures bs[j].free || bs[j].addr + HEADER != ptr { assert all[j] == bs[j]; }
  }

  // ----- whole runs

  datatype Call = Kmalloc(size: int) | Kfree(ptr: int)

  predicate CallOk(c: Call) {
    c.Kmalloc? ==> 0 <= c.size < TWO32
  }

  function Step(l: Layout, h: Heap, c: Call): Heap {
    match c
    case Kmalloc(size) => Allocate(l, h, size).heap
    case Kfree(ptr) => Release(l, h, ptr)
  }

  function Run(l: Layout, h: Heap, cs: seq<Call>): Heap
    decreases |cs|
  {
    if cs == [] then h else Run(l, Step(l, h, cs[0]), cs[1..])
  }

  /** Every state of the run, first and last included, satisfies Inv. */
  ghost predicate InvThroughout(l: Layout, h: Heap, cs: seq<Call>)
    decreases |cs|
  {
    Inv(h) && (cs == [] || InvThroughout(l, Step(l, h, cs[0]), cs[1..]))
  }

  predicate Wraps(h: Heap, c: Call) {
    c.Kmalloc? && BoundWraps(h.end, AlignUp(c.size))
  }

  /** No call of the run is the wrapping request. */
  predicate NeverWraps(l: Layout, h: Heap, cs: seq<Call>)
    decreases |cs|
  {
    cs == [] || (!Wraps(h, cs[0]) && NeverWraps(l, Step(l, h, cs[0]), cs[1..]))
  }

  lemma StepKeepsInv(h: Heap, c: Call)
    requires Inv(h) && CallOk(c)
    ensures Inv(Step(Intended, h, c)) <==> !Wraps(h, c)
  {
    match c
    case Kmalloc(size) => AllocateKeepsInv(h, size);
    case Kfree(ptr) => ReleaseKeepsInv(h, ptr);
  }

  /** In the intended layout every state of a run satisfies the invariant
      exactly when no request of the run wraps. */
  lemma {:induction false} RunKeepsInv(h: Heap, cs: seq<Call>)
    requires Inv(h) && forall c :: c in cs ==> CallOk(c)
    ensures NeverWraps(Intended, h, cs) <==> InvThroughout(Intended, h, cs)
    decreases |cs|
  {
    if cs != [] {
      StepKeepsInv(h, cs[0]);
      if !Wraps(h, cs[0]) { RunKeepsInv(Step(Intended, h, cs[0]), cs[1..]); }
    }
  }

  lemma {:induction false} InvAtEnd(l: Layout, h: Heap, cs: seq<Call>)
    requires InvThroughout(l, h, cs)
    ensures Inv(Run(l, h, cs))
    decreases |cs|
  {
    if cs != [] { InvAtEnd(l, Step(l, h, cs[0]), cs[1..]); }
  }

  /** What the invariant says, written out. */
  lemma InvMeans(h: Heap)
    requires Inv(h)
    ensures var bs := h.blocks;
      && 0x40_0000 <= h.end < 0x80_0000
      && (bs == [] ==> h.end == 0x40_0000)
      && (bs != [] ==>
           var last := bs[|bs| - 1];
           bs[0].addr == 0x40_0000 && last.addr + 20 + last.size + 4 == h.end && !last.free)
      && (forall i :: 0 <= i < |bs| ==> bs[i].size > 0 && bs[i].size % 8 == 0)
      && (forall i, j :: 0 <= i && j == i + 1 && j < |bs| ==>
            bs[j].addr == bs[i].addr + 20 + bs[i].size + 4 && !(bs[i].free && bs[j].free))
  {
    var bs := h.blocks;
    forall i | 0 <= i < |bs|
      ensures bs[i].size > 0 && bs[i].size % 8 == 0
      ensures i + 1 < |bs| ==> bs[i + 1].addr == PayloadEnd(bs[i]) + GUARD
      ensures i + 1 == |bs| ==> h.end == PayloadEnd(bs[i]) + GUARD
    {
      assert BlockOk(bs[i], h.end);
      TilesNext(bs, i, HEAP_START, h.end);
    }
  }

  /** Every heap that calls reach from the empty one: its blocks tile the space from
      the start to the top, header, payload and guard word each, no two neighbours
      are free, and the last block is used. */
  lemma RunAccounts(cs: seq<Call>)
    requires (forall c :: c in cs ==> CallOk(c)) && NeverWraps(Intended, EMPTY, cs)
    ensures var h := Run(Intended, EMPTY, cs); var bs := h.blocks;
      && Inv(h) && HEAP_START + Stride(bs) == h.end < 0x80_0000
      && (bs != [] ==>
           var last := bs[|bs| - 1];
           bs[0].addr == 0x40_0000 && last.addr + 20 + last.size + 4 == h.end && !last.free)
      && (forall i :: 0 <= i < |bs| ==> bs[i].size > 0 && bs[i].size % 8 == 0)
      && (forall i, j :: 0 <= i && j == i + 1 && j < |bs| ==>
            bs[j].addr == bs[i].addr + 20 + bs[i].size + 4 && !(bs[i].free && bs[j].free))
  {
    RunKeepsInv(EMPTY, cs);
    InvAtEnd(Intended, EMPTY, cs);
    var h := Run(Intended, EMPTY, cs);
    TilesStride(h.blocks, HEAP_START, h.end);
    InvMeans(h);
  }

  /** Requests of at most 2^32 - 32 bytes never wrap, in any state. */
  lemma {:induction false} SmallRequestsNeverWrap(l: Layout, h: Heap, cs: seq<Call>)
    requires forall c :: c in cs ==> CallOk(c) && (c.Kmalloc? ==> c.size <= TWO32 - 32)
    ensures NeverWraps(l, h, cs)
    decreases |cs|
  {
    if cs != [] { SmallRequestsNeverWrap(l, Step(l, h, cs[0]), cs[1..]); }
  }
}

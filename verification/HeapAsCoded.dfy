/** Exactly when the block layout that heap.c computes literally survives a
    kfree, and concrete runs in which it does not. */
module HeapAsCoded {
  import opened Words
  import opened HeapSpec
  import opened HeapLaws
  import opened HeapTheorems

  function NextAddr(h: Heap, i: nat): int {
    if i + 1 < |h.blocks| then h.blocks[i + 1].addr else h.end
  }

  /** Bytes between the end of a payload and the next header. */
  function Gap(h: Heap, i: nat): int
    requires i < |h.blocks|
  {
    NextAddr(h, i) - PayloadEnd(h.blocks[i])
  }

  /** Whether the guard words that freeing block i writes have room, and the
      top is not trimmed down to a block that stays linked. */
  predicate ReleaseSafe(h: Heap, i: nat)
    requires i < |h.blocks|
  {
    var bs := h.blocks;
    var withNext := i + 1 < |bs| && bs[i + 1].free;
    var withPrev := 0 < i && bs[i - 1].free;
    if i + 1 == |bs| then i == 0 || (i == 1 && withPrev)
    else
      && (withNext ==> Gap(h, i) + Gap(h, i + 1) >= GUARD)
      && (withPrev ==> Gap(h, i - 1) + Gap(h, i) + (if withNext then Gap(h, i + 1) - GUARD else 0) >= GUARD)
  }

  lemma JoinedExtent(b: Block, c: Block, end: int)
    requires BlockOk(b, end) && BlockOk(c, end) && end < HEAP_END && PayloadEnd(b) <= c.addr
    ensures Joined(b, c) == b.(size := b.size + HEADER + c.size + GUARD)
    ensures PayloadEnd(Joined(b, c)) == PayloadEnd(c) + GUARD - (c.addr - PayloadEnd(b))
    ensures PayloadEnd(Joined(b, c)) % 4 == 0 && Joined(b, c).size % 8 == 0
  {
    EightSum(b.size, c.size);
    AlignedSum(b.addr + HEADER, Joined(b, c).size);
  }

  /** A merge with room for its guard word only joins the two blocks. */
  lemma MergeWithRoom(bs: seq<Block>, end: int, j: nat)
    requires WellFormed(Heap(bs, end)) && j + 2 < |bs|
    requires Gap(Heap(bs, end), j) + Gap(Heap(bs, end), j + 1) >= GUARD
    ensures var c := Joined(bs[j], bs[j + 1]);
      && Merge(bs, j) == bs[..j] + [c] + bs[j + 2..] && WellFormed(Heap(Merge(bs, j), end))
      && PayloadEnd(c) == PayloadEnd(bs[j + 1]) + GUARD - Gap(Heap(bs, end), j)
  {
    var c := Joined(bs[j], bs[j + 1]);
    assert BlockOk(bs[j], end) && BlockOk(bs[j + 1], end) && BlockOk(bs[j + 2], end);
    JoinedExtent(bs[j], bs[j + 1], end);
    var tail := bs[j + 2..];
    assert tail[0] == bs[j + 2];
    assert StampHead(tail, PayloadEnd(c)) == tail;
    OrderedSplice(bs, j, j + 2, [c], c.addr, PayloadEnd(c));
    AllOkSplice(bs, j, j + 2, [c], end);
  }

  lemma TightGuard(b: Block, c: Block, d: Block, end: int)
    requires BlockOk(b, end) && BlockOk(c, end) && BlockOk(d, end) && end < HEAP_END
    requires PayloadEnd(b) <= c.addr && PayloadEnd(c) <= d.addr
    requires (c.addr - PayloadEnd(b)) + (d.addr - PayloadEnd(c)) < GUARD
    ensures Stamp(d, PayloadEnd(Joined(b, c))) == d.(size := MAGIC)
  {
    JoinedExtent(b, c, end);
    assert PayloadEnd(Joined(b, c)) == d.addr + 4;
  }

  /** A merge without room destroys the size of the block behind it. */
  lemma MergeWithoutRoom(bs: seq<Block>, end: int, j: nat)
    requires WellFormed(Heap(bs, end)) && j + 2 < |bs|
    requires Gap(Heap(bs, end), j) + Gap(Heap(bs, end), j + 1) < GUARD
    ensures var m := Merge(bs, j);
      |m| == |bs| - 1 && m[..j] == bs[..j] && m[j + 1] == bs[j + 2].(size := MAGIC)
  {
    TightGuard(bs[j], bs[j + 1], bs[j + 2], end);
    var tail := bs[j + 2..];
    assert tail[0] == bs[j + 2];
  }

  lemma DestroyedSize(m: seq<Block>, end: int, k: nat)
    requires k < |m| && 2 <= |m| && m[k].size == MAGIC
    ensures !WellFormed(Trim(Coded, m, end))
  {
    var g := Trim(Coded, m, end);
    assert g.blocks == m && !BlockOk(m[k], g.end);
  }

  lemma TidyAbsorbNext(bs: seq<Block>, i: nat, c: Block)
    requires CoalescedAround(bs, i) && i + 2 < |bs| && bs[i + 1].free && !bs[|bs| - 1].free
    ensures var r := bs[..i] + [c] + bs[i + 2..];
      CoalescedAround(r, i) && !r[i + 1].free && !r[|r| - 1].free && |r| == |bs| - 1
      && r[i] == c && r[..i] == bs[..i] && r[i + 1] == bs[i + 2]
  {
    AbsorbNext(bs, i, c);
  }

  lemma TidyAbsorbIntoPrev(bs: seq<Block>, i: nat, c: Block)
    requires CoalescedAround(bs, i) && 0 < i && i + 1 < |bs| && bs[i - 1].free
    requires !bs[i + 1].free && !bs[|bs| - 1].free
    ensures Tidy(bs[..i - 1] + [c] + bs[i + 1..])
  {
    AbsorbIntoPrev(bs, i, c);
  }

  lemma TrimOfUsedTop(bs: seq<Block>, end: int)
    requires bs != [] && Tidy(bs)
    ensures Trim(Coded, bs, end) == Heap(bs, end)
  {
  }

  lemma MergePrevWithRoom(n: seq<Block>, end: int, i: nat)
    requires WellFormed(Heap(n, end)) && i + 1 < |n| && !n[i + 1].free && CoalescedAround(n, i) && !n[|n| - 1].free
    requires 0 < i && n[i - 1].free && Gap(Heap(n, end), i - 1) + Gap(Heap(n, end), i) >= GUARD
    ensures var g := Trim(Coded, Merge(n, i - 1), end); WellFormed(g) && Tidy(g.blocks)
  {
    MergeWithRoom(n, end, i - 1);
    TidyAbsorbIntoPrev(n, i, Joined(n[i - 1], n[i]));
    TrimOfUsedTop(Merge(n, i - 1), end);
  }

  lemma MergePrevSafe(n: seq<Block>, end: int, i: nat)
    requires WellFormed(Heap(n, end)) && i + 1 < |n| && !n[i + 1].free && CoalescedAround(n, i) && !n[|n| - 1].free
    ensures var safe := 0 < i && n[i - 1].free ==> Gap(Heap(n, end), i - 1) + Gap(Heap(n, end), i) >= GUARD;
      var g := Trim(Coded, MergePrev(n, i), end);
      (WellFormed(g) <==> safe) && (safe ==> Tidy(g.blocks))
  {
    if 0 < i && n[i - 1].free {
      if Gap(Heap(n, end), i - 1) + Gap(Heap(n, end), i) >= GUARD {
        MergePrevWithRoom(n, end, i);
      } else {
        MergeWithoutRoom(n, end, i - 1);
        DestroyedSize(Merge(n, i - 1), end, i);
      }
    }
  }

  lemma GapsAfterMerge(m: seq<Block>, end: int, i: nat)
    requires WellFormed(Heap(m, end)) && i + 2 < |m|
    requires Gap(Heap(m, end), i) + Gap(Heap(m, end), i + 1) >= GUARD
    ensures var h, g := Heap(m, end), Heap(Merge(m, i), end);
      && |g.blocks| == |m| - 1
      && Gap(g, i) == Gap(h, i) + Gap(h, i + 1) - GUARD
      && (0 < i ==> Gap(g, i - 1) == Gap(h, i - 1))
  {
    MergeWithRoom(m, end, i);
    var n := m[..i] + [Joined(m[i], m[i + 1])] + m[i + 2..];
    assert n[i + 1] == m[i + 2] && (0 < i ==> n[i - 1] == m[i - 1]);
  }

  lemma ReleaseBeforeFreeWithoutRoom(m: seq<Block>, end: int, i: nat)
    requires WellFormed(Heap(m, end)) && i + 2 < |m|
    requires Gap(Heap(m, end), i) + Gap(Heap(m, end), i + 1) < GUARD
    ensures !WellFormed(Trim(Coded, MergePrev(Merge(m, i), i), end))
  {
    MergeWithoutRoom(m, end, i);
    var n := Merge(m, i);
    if 0 < i && n[i - 1].free {
      assert n[i + 1..][0] == n[i + 1];
      DestroyedSize(Merge(n, i - 1), end, i);
    } else {
      DestroyedSize(n, end, i + 1);
    }
  }

  /** Freeing block i when the block behind it is free too. */
  lemma ReleaseBeforeFree(m: seq<Block>, end: int, i: nat)
    requires WellFormed(Heap(m, end)) && CoalescedAround(m, i) && i + 2 < |m| && m[i + 1].free && !m[|m| - 1].free
    ensures var h := Heap(m, end);
      var safe := Gap(h, i) + Gap(h, i + 1) >= GUARD
                  && (0 < i && m[i - 1].free ==> Gap(h, i - 1) + Gap(h, i) + Gap(h, i + 1) - GUARD >= GUARD);
      var g := Trim(Coded, MergePrev(Merge(m, i), i), end);
      (WellFormed(g) <==> safe) && (safe ==> Tidy(g.blocks))
  {
    if Gap(Heap(m, end), i) + Gap(Heap(m, end), i + 1) >= GUARD {
      var n := Merge(m, i);
      MergeWithRoom(m, end, i);
      GapsAfterMerge(m, end, i);
      TidyAbsorbNext(m, i, Joined(m[i], m[i + 1]));
      assert 0 < i ==> n[i - 1] == n[..i][i - 1] == m[i - 1];
      MergePrevSafe(n, end, i);
    } else {
      ReleaseBeforeFreeWithoutRoom(m, end, i);
    }
  }

  /** Freeing block i of a list with another block behind it. */
  lemma ReleaseInside(h: Heap, i: nat)
    requires WellFormed(h) && Tidy(h.blocks) && i + 1 < |h.blocks|
    ensures var g := Trim(Coded, Coalesce(h.blocks, i), h.end);
      (WellFormed(g) <==> ReleaseSafe(h, i)) && (ReleaseSafe(h, i) ==> Tidy(g.blocks))
  {
    var m := Mark(h.blocks, i);
    FlagKeepsWellFormed(h, i, true);
    assert CoalescedAround(m, i);
    if m[i + 1].free { ReleaseBeforeFree(m, h.end, i); }
    else { MergePrevSafe(m, h.end, i); }
  }

  /** Freeing the last block: the list survives only if it becomes empty. */
  lemma ReleaseLast(h: Heap, i: nat)
    requires WellFormed(h) && Tidy(h.blocks) && i + 1 == |h.blocks|
    ensures var g := Trim(Coded, Coalesce(h.blocks, i), h.end);
      (WellFormed(g) <==> ReleaseSafe(h, i)) && (ReleaseSafe(h, i) ==> g == EMPTY)
  {
    var m := Mark(h.blocks, i);
    var r := MergePrev(m, i);
    assert 0 < i && m[i - 1].free ==> r == m[..i - 1] + [Joined(m[i - 1], m[i])];
    var g := Trim(Coded, r, h.end);
    if |r| > 1 {
      assert BlockOk(h.blocks[i], h.end);
      assert g.end == r[|r| - 1].addr && !BlockOk(r[|r| - 1], g.end);
    }
  }

  /** As coded, kfree of a live block leaves a well-formed list exactly when the
      guard words it writes have room and no trimmed block stays linked. */
  lemma ReleaseAsCoded(h: Heap, ptr: int)
    requires WellFormed(h) && Tidy(h.blocks) && LiveIndex(h.blocks, ptr) < |h.blocks|
    ensures var g := Release(Coded, h, ptr);
      var safe := ReleaseSafe(h, LiveIndex(h.blocks, ptr));
      (WellFormed(g) <==> safe) && (safe ==> Tidy(g.blocks))
  {
    var i := LiveIndex(h.blocks, ptr);
    if i + 1 < |h.blocks| { ReleaseInside(h, i); } else { ReleaseLast(h, i); }
  }

  /** A merge with room for its guard word keeps the live blocks. */
  lemma MergeWithRoomLive(bs: seq<Block>, end: int, j: nat)
    requires WellFormed(Heap(bs, end)) && j + 2 < |bs| && bs[j].free && bs[j + 1].free
    requires Gap(Heap(bs, end), j) + Gap(Heap(bs, end), j + 1) >= GUARD
    ensures Live(Merge(bs, j)) == Live(bs)
  {
    MergeWithRoom(bs, end, j);
    FreePairLive(bs, j, Joined(bs[j], bs[j + 1]));
  }

  lemma MergeNextLive(m: seq<Block>, end: int, i: nat)
    requires WellFormed(Heap(m, end)) && i + 1 < |m| && m[i].free && (m[i + 1].free ==> i + 2 < |m|)
    requires m[i + 1].free ==> Gap(Heap(m, end), i) + Gap(Heap(m, end), i + 1) >= GUARD
    ensures var n := MergeNext(m, i); var h, g := Heap(m, end), Heap(n, end);
      && WellFormed(g) && Live(n) == Live(m) && i + 1 < |n| && n[i].free && (0 < i ==> n[i - 1] == m[i - 1])
      && Gap(g, i) == Gap(h, i) + (if m[i + 1].free then Gap(h, i + 1) - GUARD else 0)
      && (0 < i ==> Gap(g, i - 1) == Gap(h, i - 1))
  {
    if m[i + 1].free {
      MergeWithRoom(m, end, i);
      MergeWithRoomLive(m, end, i);
      GapsAfterMerge(m, end, i);
      var n := Merge(m, i);
      assert 0 < i ==> n[i - 1] == n[..i][i - 1] == m[i - 1];
    }
  }

  lemma CoalesceLiveAsCoded(h: Heap, i: nat)
    requires WellFormed(h) && Tidy(h.blocks) && i + 1 < |h.blocks| && ReleaseSafe(h, i)
    ensures Live(Coalesce(h.blocks, i)) == Live(h.blocks) - {h.blocks[i]}
  {
    var m := Mark(h.blocks, i);
    FlagKeepsWellFormed(h, i, true);
    MarkLive(h.blocks, h.end, i);
    MergeNextLive(m, h.end, i);
    var n := MergeNext(m, i);
    if 0 < i && n[i - 1].free { MergeWithRoomLive(n, h.end, i - 1); }
  }

  /** As coded too, a safe kfree retires exactly the block it is given. */
  lemma ReleaseLiveAsCoded(h: Heap, ptr: int)
    requires WellFormed(h) && Tidy(h.blocks) && LiveIndex(h.blocks, ptr) < |h.blocks|
    requires ReleaseSafe(h, LiveIndex(h.blocks, ptr))
    ensures Live(Release(Coded, h, ptr).blocks) == Live(h.blocks) - {h.blocks[LiveIndex(h.blocks, ptr)]}
  {
    var i := LiveIndex(h.blocks, ptr);
    if i + 1 < |h.blocks| {
      CoalesceLiveAsCoded(h, i);
    } else {
      ReleaseLast(h, i);
      OnlyOneLive(h.blocks, i);
    }
  }

  lemma OnlyOneLive(bs: seq<Block>, i: nat)
    requires i + 1 == |bs| && !bs[i].free && (i == 0 || (i == 1 && bs[0].free))
    ensures Live(bs) == {bs[i]}
  {
    assert bs == if i == 0 then [bs[0]] else [bs[0], bs[1]];
  }

  // ----- runs of the coded layout

  lemma AllocateKeepsTidy(l: Layout, h: Heap, size: int)
    requires Tidy(h.blocks)
    ensures Tidy(Allocate(l, h, size).heap.blocks)
  {
    var i := FirstFit(h.blocks, AlignUp(size));
    if i < |h.blocks| { TakeKeepsTidy(l, h, i, AlignUp(size)); }
  }

  /** A step the coded layout survives, decidable from the list before it. */
  predicate StepSafe(h: Heap, c: Call) {
    match c
    case Kmalloc(_) => !Wraps(h, c)
    case Kfree(ptr) =>
      var i := LiveIndex(h.blocks, ptr);
      i == |h.blocks| || (ReleaseSafe(h, i) && !GoesAstray(h, ptr))
  }

  /** What one call of the code as written leads to. A release that goes astray
      dereferences a guard word. */
  datatype Outcome = Reached(heap: Heap) | Wild

  function CodedOutcome(h: Heap, c: Call): Outcome {
    if c.Kfree? && GoesAstray(h, c.ptr) then Wild else Reached(Step(Coded, h, c))
  }

  /** Every free of the run is of a pointer that the list then decides about. */
  ghost predicate FreesJudged(h: Heap, cs: seq<Call>)
    decreases |cs|
  {
    cs == [] || ((cs[0].Kfree? ==> Judged(h, cs[0].ptr)) && FreesJudged(Step(Coded, h, cs[0]), cs[1..]))
  }

  predicate SafeThroughout(h: Heap, cs: seq<Call>)
    decreases |cs|
  {
    cs == [] || (StepSafe(h, cs[0]) && SafeThroughout(Step(Coded, h, cs[0]), cs[1..]))
  }

  /** Every call reaches a heap, and all of these are well formed and tidy. */
  ghost predicate SoundThroughout(h: Heap, cs: seq<Call>)
    decreases |cs|
  {
    && WellFormed(h) && Tidy(h.blocks)
    && (cs == [] || (CodedOutcome(h, cs[0]).Reached? && SoundThroughout(CodedOutcome(h, cs[0]).heap, cs[1..])))
  }

  /** A call that does not go astray leaves a well-formed and tidy list exactly
      when it is a safe step. */
  lemma CodedStep(h: Heap, c: Call)
    requires WellFormed(h) && Tidy(h.blocks) && CallOk(c) && CodedOutcome(h, c).Reached?
    ensures var g := CodedOutcome(h, c).heap; StepSafe(h, c) <==> WellFormed(g) && Tidy(g.blocks)
  {
    match c
    case Kmalloc(size) =>
      AllocateKeepsWellFormed(Coded, h, size);
      AllocateKeepsTidy(Coded, h, size);
    case Kfree(ptr) =>
      if LiveIndex(h.blocks, ptr) < |h.blocks| { ReleaseAsCoded(h, ptr); }
  }

  /** A run of the code as written that frees only judged pointers stays sound
      exactly when every step of it is safe. */
  lemma {:induction false} CodedRun(h: Heap, cs: seq<Call>)
    requires WellFormed(h) && Tidy(h.blocks) && (forall c :: c in cs ==> CallOk(c)) && FreesJudged(h, cs)
    ensures SafeThroughout(h, cs) <==> SoundThroughout(h, cs)
    decreases |cs|
  {
    if cs != [] && CodedOutcome(h, cs[0]).Reached? {
      CodedStep(h, cs[0]);
      if StepSafe(h, cs[0]) { CodedRun(Step(Coded, h, cs[0]), cs[1..]); }
    }
  }

  lemma {:induction false} SoundAtEnd(h: Heap, cs: seq<Call>)
    requires SoundThroughout(h, cs)
    ensures WellFormed(Run(Coded, h, cs)) && Tidy(Run(Coded, h, cs).blocks)
    decreases |cs|
  {
    if cs != [] { SoundAtEnd(Step(Coded, h, cs[0]), cs[1..]); }
  }

  /** Along a safe run of the code as written kmalloc hands out bytes that are the
      caller's own, under an address that is not live, exactly when the request does
      not wrap. */
  lemma SafeRunHandsOutOwnBytes(cs: seq<Call>, size: int)
    requires (forall c :: c in cs ==> CallOk(c)) && FreesJudged(EMPTY, cs) && SafeThroughout(EMPTY, cs) && 0 <= size < TWO32
    ensures var h := Run(Coded, EMPTY, cs); var a := Allocate(Coded, h, size);
      a.ptr != 0 ==>
        && LiveIndex(h.blocks, a.ptr) == |h.blocks|
        && (OwnBytes(a.heap, LiveIndex(a.heap.blocks, a.ptr), a.ptr, size) <==> !BoundWraps(h.end, AlignUp(size)))
  {
    CodedRun(EMPTY, cs);
    SoundAtEnd(EMPTY, cs);
    var h := Run(Coded, EMPTY, cs);
    if Allocate(Coded, h, size).ptr != 0 {
      AllocateIsNew(Coded, h, size);
      AllocationIsDisjoint(Coded, h, size);
    }
  }

  // ----- runs that break the coded layout

  lemma {:induction false} RunSnoc(l: Layout, h: Heap, cs: seq<Call>, c: Call)
    ensures Run(l, h, cs + [c]) == Step(l, Run(l, h, cs), c)
    decreases |cs|
  {
    if cs == [] {
      assert cs + [c] == [c];
    } else {
      assert (cs + [c])[1..] == cs[1..] + [c];
      RunSnoc(l, Step(l, h, cs[0]), cs[1..], c);
    }
  }

  /** Two allocations and a free of the second: the trimmed block stays linked
      above the new top. HeapWalk.TrimmedIsReported says what heap_validate makes of
      that, and HeapWalk.NextBlockLinksToItself what the next kmalloc does. */
  lemma TrimLeavesBlockLinked()
    ensures var h := Run(Coded, EMPTY, [Kmalloc(8), Kmalloc(8), Kfree(0x400030)]);
      h == Heap([Block(0x400000, 8, false), Block(0x40001C, 8, true)], 0x40001C) && !WellFormed(h)
  {
    var a := Heap([Block(0x400000, 8, false)], 0x40001C);
    var b := Heap([Block(0x400000, 8, false), Block(0x40001C, 8, false)], 0x40003C);
    assert Step(Coded, EMPTY, Kmalloc(8)) == a;
    assert Step(Coded, a, Kmalloc(8)) == b by { assert FirstFit(a.blocks, 8) == 1; }
    var c := Step(Coded, b, Kfree(0x400030));
    assert LiveIndex(b.blocks[1..], 0x400030) == 0;
    assert LiveIndex(b.blocks, 0x400030) == 1;
    assert !BlockOk(c.blocks[1], c.end);
    RunSnoc(Coded, EMPTY, [], Kmalloc(8));
    RunSnoc(Coded, EMPTY, [Kmalloc(8)], Kmalloc(8));
    RunSnoc(Coded, EMPTY, [Kmalloc(8), Kmalloc(8)], Kfree(0x400030));
  }

  /** After the same three calls two more hand out a block that is in use: the
      trimmed block is found free and reused, and the next block is put at the top,
      which is its own address. No request wraps. */
  lemma LiveBlockHandedOut() returns (cs: seq<Call>)
    ensures cs == [Kmalloc(8), Kmalloc(8), Kfree(0x400030)] + [Kmalloc(8)]
    ensures NeverWraps(Coded, EMPTY, cs)
    ensures var h := Run(Coded, EMPTY, cs);
      LiveIndex(h.blocks, 0x400030) < |h.blocks| && Allocate(Coded, h, 16).ptr == 0x400030
  {
    TrimLeavesBlockLinked();
    var d := Heap([Block(0x400000, 8, false), Block(0x40001C, 8, true)], 0x40001C);
    var e := Heap([Block(0x400000, 8, false), Block(0x40001C, 8, false)], 0x40001C);
    ReuseTrimmed(d, e);
    cs := Then([Kmalloc(8), Kmalloc(8), Kfree(0x400030)], d, Kmalloc(8), e);
    SmallRequestsNeverWrap(Coded, EMPTY, cs);
    TopIsLive(e);
  }

  lemma ReuseTrimmed(d: Heap, e: Heap)
    requires d == Heap([Block(0x400000, 8, false), Block(0x40001C, 8, true)], 0x40001C)
    requires e == Heap([Block(0x400000, 8, false), Block(0x40001C, 8, false)], 0x40001C)
    ensures Step(Coded, d, Kmalloc(8)) == e
  {
    FirstFitIs(d.blocks, 8, 1);
    assert d.blocks[1 := Block(0x40001C, 8, false)] == e.blocks;
  }

  lemma TopIsLive(e: Heap)
    requires e == Heap([Block(0x400000, 8, false), Block(0x40001C, 8, false)], 0x40001C)
    ensures LiveIndex(e.blocks, 0x400030) == 1 && Allocate(Coded, e, 16).ptr == 0x400030
  {
    LiveIndexUnique(e.blocks, 0x400030, 1);
    FirstFitIs(e.blocks, 16, 2);
  }

  const FENCE := Block(0x4000DC, 8, false)

  lemma {:induction false} SafeSnoc(h: Heap, cs: seq<Call>, c: Call)
    ensures SafeThroughout(h, cs + [c]) <==> SafeThroughout(h, cs) && StepSafe(Run(Coded, h, cs), c)
    decreases |cs|
  {
    if cs == [] {
      assert cs + [c] == [c];
    } else {
      assert (cs + [c])[1..] == cs[1..] + [c];
      SafeSnoc(Step(Coded, h, cs[0]), cs[1..], c);
    }
  }

  /** The state a call of the run leads to. */
  lemma Then(cs: seq<Call>, h: Heap, c: Call, g: Heap) returns (ds: seq<Call>)
    requires Run(Coded, EMPTY, cs) == h && Step(Coded, h, c) == g
    ensures ds == cs + [c] && Run(Coded, EMPTY, ds) == g
    ensures SafeThroughout(EMPTY, ds) <==> SafeThroughout(EMPTY, cs) && StepSafe(h, c)
  {
    RunSnoc(Coded, EMPTY, cs, c);
    SafeSnoc(EMPTY, cs, c);
    ds := cs + [c];
  }

  lemma LiveIndexUnique(bs: seq<Block>, ptr: int, i: nat)
    requires i < |bs| && !bs[i].free && bs[i].addr + HEADER == ptr
    requires forall j :: 0 <= j < i ==> bs[j].free || bs[j].addr + HEADER != ptr
    ensures LiveIndex(bs, ptr) == i
  {
  }

  lemma CarveUp() returns (cs: seq<Call>)
    ensures cs == [Kmalloc(200), Kmalloc(8), Kfree(0x400014)]
    ensures Run(Coded, EMPTY, cs) == Heap([Block(0x400000, 200, true), FENCE], 0x4000FC)
  {
    var a := Heap([Block(0x400000, 200, false)], 0x4000DC);
    var b := Heap([Block(0x400000, 200, false), FENCE], 0x4000FC);
    cs := Then([], EMPTY, Kmalloc(200), a);
    FirstFitIs(a.blocks, 8, 1);
    cs := Then(cs, a, Kmalloc(8), b);
    cs := Then(cs, b, Kfree(0x400014), Heap([Block(0x400000, 200, true), FENCE], 0x4000FC));
  }

  lemma SplitTwice() returns (cs: seq<Call>)
    ensures cs == [Kmalloc(200), Kmalloc(8), Kfree(0x400014)] + [Kmalloc(8)] + [Kmalloc(8)]
    ensures Run(Coded, EMPTY, cs)
      == Heap([Block(0x400000, 8, false), Block(0x40001C, 8, false), Block(0x400038, 136, true), FENCE], 0x4000FC)
  {
    cs := CarveUp();
    var c := Heap([Block(0x400000, 200, true), FENCE], 0x4000FC);
    var d := Heap([Block(0x400000, 8, false), Block(0x40001C, 168, true), FENCE], 0x4000FC);
    var e := Heap([Block(0x400000, 8, false), Block(0x40001C, 8, false), Block(0x400038, 136, true), FENCE], 0x4000FC);
    cs := Then(cs, c, Kmalloc(8), d);
    FirstFitIs(d.blocks, 8, 1);
    cs := Then(cs, d, Kmalloc(8), e);
  }

  lemma FillUp() returns (cs: seq<Call>)
    ensures cs == [Kmalloc(200), Kmalloc(8), Kfree(0x400014)] + [Kmalloc(8)] + [Kmalloc(8)] + [Kmalloc(136)]
    ensures Run(Coded, EMPTY, cs)
      == Heap([Block(0x400000, 8, false), Block(0x40001C, 8, false), Block(0x400038, 136, false), FENCE], 0x4000FC)
  {
    cs := SplitTwice();
    var e := Heap([Block(0x400000, 8, false), Block(0x40001C, 8, false), Block(0x400038, 136, true), FENCE], 0x4000FC);
    var f := Heap([Block(0x400000, 8, false), Block(0x40001C, 8, false), Block(0x400038, 136, false), FENCE], 0x4000FC);
    FirstFitIs(e.blocks, 136, 2);
    assert e.blocks[2 := Block(0x400038, 136, false)] == f.blocks;
    cs := Then(cs, e, Kmalloc(136), f);
  }

  /** Merging the first two blocks of the filled list. */
  lemma MergeHitsSize(b: seq<Block>)
    requires b == [Block(0x400000, 8, true), Block(0x40001C, 8, false), Block(0x400038, 136, false), FENCE]
    ensures Release(Coded, Heap(b, 0x4000FC), 0x400030)
      == Heap([Block(0x400000, 40, true), Block(0x400038, MAGIC, false), FENCE], 0x4000FC)
  {
    LiveIndexUnique(b, 0x400030, 1);
    var m := Mark(b, 1);
    assert MergeNext(m, 1) == m;
    assert m[2..] == [Block(0x400038, 136, false), FENCE];
    assert StampHead(m[2..], 0x40003C) == [Block(0x400038, MAGIC, false), FENCE];
    assert m[..0] == [];
    assert Merge(m, 0) == [Block(0x400000, 40, true), Block(0x400038, MAGIC, false), FENCE];
  }

  /** Two splits, then freeing the two left parts: the guard word of the merged
      block lands on the size of the block behind it, which is still in use. */
  lemma MergeDestroysNeighbour() returns (cs: seq<Call>)
    ensures cs == [Kmalloc(200), Kmalloc(8), Kfree(0x400014)] + [Kmalloc(8)] + [Kmalloc(8)] + [Kmalloc(136)]
                  + [Kfree(0x400014)] + [Kfree(0x400030)]
    ensures var h := Run(Coded, EMPTY, cs);
      |h.blocks| == 3 && h.blocks[1] == Block(0x400038, MAGIC, false) && !WellFormed(h)
  {
    cs := FillUp();
    var f := Heap([Block(0x400000, 8, false), Block(0x40001C, 8, false), Block(0x400038, 136, false), FENCE], 0x4000FC);
    var g := Heap([Block(0x400000, 8, true), Block(0x40001C, 8, false), Block(0x400038, 136, false), FENCE], 0x4000FC);
    assert f.blocks[0 := Block(0x400000, 8, true)] == g.blocks;
    cs := Then(cs, f, Kfree(0x400014), g);
    MergeHitsSize(g.blocks);
    var h := Heap([Block(0x400000, 40, true), Block(0x400038, MAGIC, false), FENCE], 0x4000FC);
    cs := Then(cs, g, Kfree(0x400030), h);
    assert !BlockOk(h.blocks[1], h.end);
  }

  /** The wrapping request is accepted in the intended layout as well: with
      eight bytes left below the limit, kmalloc(2^32 - 24) returns a block that
      starts inside the heap and ends far outside it. */
  lemma WrappingRequestIsAccepted()
    ensures var h := Run(Intended, EMPTY, [Kmalloc(0x3FFFE0)]);
      && h.end == HEAP_END - 8 && Inv(h)
      && Allocate(Intended, h, 0xFFFF_FFE8).ptr == h.end + HEADER
      && !Inv(Allocate(Intended, h, 0xFFFF_FFE8).heap)
  {
    RunSnoc(Intended, EMPTY, [], Kmalloc(0x3FFFE0));
    AllocateKeepsInv(EMPTY, 0x3FFFE0);
    var h := Run(Intended, EMPTY, [Kmalloc(0x3FFFE0)]);
    AllocateKeepsInv(h, 0xFFFF_FFE8);
    WrapReachesAppend(Intended, h, 0xFFFF_FFE8);
  }

  const FIRST := Block(0x400000, 8, false)
  const LAST := Block(0x4000BC, 8, false)

  lemma CarveBetween() returns (cs: seq<Call>)
    ensures cs == [Kmalloc(8), Kmalloc(136), Kmalloc(8), Kfree(0x400030)]
    ensures Run(Coded, EMPTY, cs) == Heap([FIRST] + [Block(0x40001C, 136, true)] + [LAST], 0x4000DC)
  {
    var a := Heap([FIRST], 0x40001C);
    var b := Heap([FIRST, Block(0x40001C, 136, false)], 0x4000BC);
    var c := Heap([FIRST, Block(0x40001C, 136, false), LAST], 0x4000DC);
    var d := Heap([FIRST] + [Block(0x40001C, 136, true)] + [LAST], 0x4000DC);
    cs := Then([], EMPTY, Kmalloc(8), a);
    FirstFitIs(a.blocks, 136, 1);
    cs := Then(cs, a, Kmalloc(136), b);
    FirstFitIs(b.blocks, 8, 2);
    cs := Then(cs, b, Kmalloc(8), c);
    LiveIndexUnique(c.blocks, 0x400030, 1);
    assert c.blocks[1 := Block(0x40001C, 136, true)] == d.blocks;
    cs := Then(cs, c, Kfree(0x400030), d);
  }

  lemma SplitOne(a: seq<Block>, b: Block, tail: seq<Block>, end: int)
    requires HEAP_START <= end < HEAP_END - 32
    requires b.free && 40 <= b.size < TWO32 && forall j :: 0 <= j < |a| ==> !a[j].free
    ensures var h := Heap(a + [b] + tail, end);
      && StepSafe(h, Kmalloc(8))
      && Step(Coded, h, Kmalloc(8))
           == Heap(a + [Block(b.addr, 8, false)] + [Block(b.addr + 28, b.size - 32, true)] + tail, end)
  {
    var bs := a + [b] + tail;
    FirstFitIs(bs, 8, |a|);
    TakeEight(a, b, tail, end);
  }

  lemma TakeEight(a: seq<Block>, b: Block, tail: seq<Block>, end: int)
    requires 40 <= b.size < TWO32
    ensures Take(Coded, Heap(a + [b] + tail, end), |a|, 8)
      == Heap(a + [Block(b.addr, 8, false)] + [Block(b.addr + 28, b.size - 32, true)] + tail, end)
  {
    var bs := a + [b] + tail;
    assert bs[..|a|] == a && bs[|a| + 1..] == tail;
    var x, y := Block(b.addr, 8, false), Block(b.addr + 28, b.size - 32, true);
    assert a + [x, y] + tail == a + [x] + [y] + tail;
  }

  /** A kmalloc(8) that splits block b between used blocks and a tail. */
  lemma SplitStep(cs: seq<Call>, a: seq<Block>, b: Block, tail: seq<Block>, end: int) returns (ds: seq<Call>, c: seq<Block>, rest: Block)
    requires Run(Coded, EMPTY, cs) == Heap(a + [b] + tail, end) && HEAP_START <= end < HEAP_END - 32
    requires b.free && 40 <= b.size < TWO32 && forall j :: 0 <= j < |a| ==> !a[j].free
    ensures ds == cs + [Kmalloc(8)]
    ensures c == a + [Block(b.addr, 8, false)] && rest == Block(b.addr + 28, b.size - 32, true)
    ensures Run(Coded, EMPTY, ds) == Heap(c + [rest] + tail, end)
    ensures SafeThroughout(EMPTY, cs) ==> SafeThroughout(EMPTY, ds)
    ensures forall j :: 0 <= j < |c| ==> !c[j].free
  {
    SplitOne(a, b, tail, end);
    c, rest := a + [Block(b.addr, 8, false)], Block(b.addr + 28, b.size - 32, true);
    ds := Then(cs, Heap(a + [b] + tail, end), Kmalloc(8), Heap(c + [rest] + tail, end));
  }

  /** Freeing LAST when the free block before it leaves a gap of twenty bytes. */
  lemma GapOfTwenty(a: seq<Block>, end: int)
    requires forall j :: 0 <= j < |a| ==> a[j].addr != LAST.addr
    ensures GoesAstray(Heap(a + [Block(0x40008C, 8, true)] + [LAST], end), LAST.addr + HEADER)
  {
    var b := Block(0x40008C, 8, true);
    var bs, i := a + [b] + [LAST], |a| + 1;
    LiveIndexUnique(bs, LAST.addr + HEADER, i);
    var m := Mark(bs, i);
    assert m[i - 1] == b && m[i] == LAST.(free := true);
    assert PayloadEnd(Joined(b, m[i])) - LAST.addr == 12;
  }

  /** After four splits of one block, freeing the block behind the remainder
      writes the guard word over that block's own `next`. */
  lemma ReleaseGoesAstray() returns (cs: seq<Call>)
    ensures cs == [Kmalloc(8), Kmalloc(136), Kmalloc(8), Kfree(0x400030)]
                  + [Kmalloc(8)] + [Kmalloc(8)] + [Kmalloc(8)] + [Kmalloc(8)]
    ensures GoesAstray(Run(Coded, EMPTY, cs), LAST.addr + HEADER)
  {
    cs := CarveBetween();
    var a, b := [FIRST], Block(0x40001C, 136, true);
    cs, a, b := SplitStep(cs, a, b, [LAST], 0x4000DC);
    cs, a, b := SplitStep(cs, a, b, [LAST], 0x4000DC);
    cs, a, b := SplitStep(cs, a, b, [LAST], 0x4000DC);
    cs, a, b := SplitStep(cs, a, b, [LAST], 0x4000DC);
    GapOfTwenty(a, 0x4000DC);
  }

  // ----- a double free that is not refused

  const VICTIM := Block(0x4000FC, 8, false)
  const TOP := Block(0x40011C, 8, false)

  lemma FourBlocks() returns (cs: seq<Call>)
    ensures cs == [Kmalloc(8), Kmalloc(200), Kmalloc(8), Kmalloc(8)]
    ensures Run(Coded, EMPTY, cs) == Heap([FIRST, Block(0x40001C, 200, false), VICTIM, TOP], 0x40013C)
    ensures SafeThroughout(EMPTY, cs)
  {
    var a := Heap([FIRST], 0x40001C);
    var b := Heap([FIRST, Block(0x40001C, 200, false)], 0x4000FC);
    var c := Heap([FIRST, Block(0x40001C, 200, false), VICTIM], 0x40011C);
    cs := Then([], EMPTY, Kmalloc(8), a);
    FirstFitIs(a.blocks, 200, 1);
    cs := Then(cs, a, Kmalloc(200), b);
    FirstFitIs(b.blocks, 8, 2);
    cs := Then(cs, b, Kmalloc(8), c);
    FirstFitIs(c.blocks, 8, 3);
    cs := Then(cs, c, Kmalloc(8), Heap([FIRST, Block(0x40001C, 200, false), VICTIM, TOP], 0x40013C));
  }

  lemma CarveWide() returns (cs: seq<Call>)
    ensures cs == [Kmalloc(8), Kmalloc(200), Kmalloc(8), Kmalloc(8), Kfree(0x400030)]
    ensures Run(Coded, EMPTY, cs) == Heap([FIRST] + [Block(0x40001C, 200, true)] + [VICTIM, TOP], 0x40013C)
    ensures SafeThroughout(EMPTY, cs)
  {
    cs := FourBlocks();
    var d := Heap([FIRST, Block(0x40001C, 200, false), VICTIM, TOP], 0x40013C);
    var e := Heap([FIRST] + [Block(0x40001C, 200, true)] + [VICTIM, TOP], 0x40013C);
    LiveIndexUnique(d.blocks, 0x400030, 1);
    assert d.blocks[1 := Block(0x40001C, 200, true)] == e.blocks;
    cs := Then(cs, d, Kfree(0x400030), e);
  }

  /** Freeing VICTIM behind a free block that leaves a gap of 28 bytes. */
  lemma GapOfTwentyEight(a: seq<Block>)
    requires a != [] && forall j :: 0 <= j < |a| ==> !a[j].free && a[j].addr < VICTIM.addr
    ensures var h := Heap(a + [Block(0x4000C4, 8, true)] + [VICTIM, TOP], 0x40013C);
      var ptr := VICTIM.addr + HEADER;
      && StepSafe(h, Kfree(ptr)) && SpoilsHeader(h, ptr) && VICTIM.addr < Release(Coded, h, ptr).end
  {
    var b := Block(0x4000C4, 8, true);
    var bs, i := a + [b] + [VICTIM, TOP], |a| + 1;
    var h := Heap(bs, 0x40013C);
    LiveIndexUnique(bs, VICTIM.addr + HEADER, i);
    var m := Mark(bs, i);
    assert m[i - 1] == b && m[i] == VICTIM.(free := true) && m[i + 1] == TOP && MergeNext(m, i) == m;
    assert PayloadEnd(Joined(b, m[i])) - VICTIM.addr == 4;
    var r := Merge(m, i - 1);
    assert m[i + 1..] == [TOP] && r == m[..i - 1] + [Joined(b, m[i])] + [TOP];
    assert Trim(Coded, r, h.end) == Heap(r, h.end);
  }

  /** A run of safe steps, the last of which is a kfree of a live block whose
      header stays below the top with a guard word for a size: kfree of the same
      pointer again reads a word far outside the heap. */
  lemma SecondFreeFaults() returns (cs: seq<Call>)
    ensures cs == [Kmalloc(8), Kmalloc(200), Kmalloc(8), Kmalloc(8), Kfree(0x400030)]
                  + [Kmalloc(8)] + [Kmalloc(8)] + [Kmalloc(8)] + [Kmalloc(8)] + [Kmalloc(8)] + [Kmalloc(8)]
    ensures SafeThroughout(EMPTY, cs + [Kfree(0x400110)])
    ensures var h := Run(Coded, EMPTY, cs);
      SpoilsHeader(h, 0x400110) && 0x400110 - HEADER < Release(Coded, h, 0x400110).end
  {
    cs := CarveWide();
    var a, b := [FIRST], Block(0x40001C, 200, true);
    cs, a, b := SplitStep(cs, a, b, [VICTIM, TOP], 0x40013C);
    cs, a, b := SplitStep(cs, a, b, [VICTIM, TOP], 0x40013C);
    cs, a, b := SplitStep(cs, a, b, [VICTIM, TOP], 0x40013C);
    cs, a, b := SplitStep(cs, a, b, [VICTIM, TOP], 0x40013C);
    cs, a, b := SplitStep(cs, a, b, [VICTIM, TOP], 0x40013C);
    cs, a, b := SplitStep(cs, a, b, [VICTIM, TOP], 0x40013C);
    GapOfTwentyEight(a);
    SafeSnoc(EMPTY, cs, Kfree(0x400110));
  }
}

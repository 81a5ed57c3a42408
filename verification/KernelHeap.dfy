/** The allocator of src/kernel/mm/heap.c over word memory, proved against the
    block-list functions of HeapSpec. */
module KernelHeap {
  import opened Words
  import opened HeapSpec
  import opened HeapLaws
  import opened HeapTheorems
  import opened HeapMemory
  import opened HeapFree

  ghost predicate Sound(l: Layout, h: Heap) {
    WellFormed(h) && Tidy(h.blocks) && (l.Intended? ==> Tiled(h))
  }

  lemma TakeKeepsSound(l: Layout, h: Heap, i: nat, n: int)
    requires Sound(l, h) && i < |h.blocks| && Fits(h.blocks[i], n) && 8 <= n && n % 8 == 0
    ensures Sound(l, Take(l, h, i, n))
  {
    TakeKeepsWellFormed(l, h, i, n);
    TakeKeepsTidy(l, h, i, n);
    if l.Intended? { TakeKeepsTiled(h, i, n); }
  }

  lemma AppendKeepsSound(l: Layout, h: Heap, n: int)
    requires Sound(l, h) && h.blocks != [] && 8 <= n < TWO32 && n % 8 == 0 && n <= EarlyLimit(h.end) && !BoundWraps(h.end, n)
    ensures Sound(l, Append(h, n).heap)
  {
    AppendKeepsWellFormed(h, n);
    if l.Intended? { AppendKeepsTiled(h, n); }
  }

  /** What splitting needs to know about block i, and where the parts lie. */
  lemma SplitPlaces(l: Layout, m: seq<Word>, h: Heap, i: nat, n: Word)
    requires Sound(l, h) && Headers(m, h.blocks) && Guards(m, h.blocks)
    requires i < |h.blocks| && Fits(h.blocks[i], n) && 8 <= n && n % 8 == 0
    requires h.blocks[i].size >= W32(n + HEADER + GUARD + MIN_BLOCK)
    ensures var b, r, next := h.blocks[i], Right(l, h.blocks[i], n), AddrOf(h.blocks, i + 1);
      && Extents(h.blocks) && BlockAt(m, b, AddrOf(h.blocks, i - 1), next) && b.free
      && PayloadEnd(b) < RAM && m[PayloadEnd(b)] == MAGIC && HEAP_START <= b.addr
      && (next == 0 || (PayloadEnd(b) <= next && next + HEADER <= RAM))
      && b.addr + HEADER + n + Pad(l) == r.addr < TWO32 && 0 <= r.size < TWO32
      && PayloadEnd(r) <= PayloadEnd(b) && 0 <= next < TWO32
  {
    var b := h.blocks[i];
    assert HeaderAt(m, h.blocks, i) && GuardAt(m, h.blocks, i) && BlockOk(b, h.end);
    assert i + 1 < |h.blocks| ==> BlockOk(h.blocks[i + 1], h.end);
    WellFormedExtents(h);
    SplitHalves(l, b, n, h.end);
  }

  lemma SplitAligned(l: Layout, h: Heap, i: nat, n: int)
    requires WellFormed(h) && i < |h.blocks| && Fits(h.blocks[i], n) && 8 <= n && n % 8 == 0
    requires h.blocks[i].size >= W32(n + HEADER + GUARD + MIN_BLOCK)
    ensures h.blocks[i].addr % 4 == 0 && n % 4 == 0 && AddrOf(h.blocks, i + 1) % 4 == 0
    ensures var r := Right(l, h.blocks[i], n); r.addr % 4 == 0 && r.size % 4 == 0
  {
    var r := Right(l, h.blocks[i], n);
    WellFormedAligned(h);
    assert BlockOk(h.blocks[i], h.end);
    SplitHalves(l, h.blocks[i], n, h.end);
    EightIsTwiceFour(n);
    EightIsTwiceFour(r.size);
  }

  ghost predicate Aligned(bs: seq<Block>) {
    forall i :: 0 <= i < |bs| ==> bs[i].addr % 4 == 0
  }

  lemma WellFormedAligned(h: Heap)
    requires WellFormed(h)
    ensures Aligned(h.blocks)
  {
    assert forall i :: 0 <= i < |h.blocks| ==> BlockOk(h.blocks[i], h.end);
  }

  lemma SplitResult(m0: seq<Word>, m1: seq<Word>, bs: seq<Block>, i: nat, left: Block, right: Block)
    requires Headers(m0, bs) && Guards(m0, bs) && Extents(bs) && i < |bs| && bs[i].free
    requires SplitStores(m0, m1, bs[i], left, right, AddrOf(bs, i - 1), AddrOf(bs, i + 1))
    ensures var r := bs[..i] + [left, right] + bs[i + 1..];
      Headers(m1, r) && Guards(m1, r) && Extents(r) && AddrOf(r, 0) == AddrOf(bs, 0)
    ensures KeepsPayloads(m0, m1, bs, -1)
  {
    var r := bs[..i] + [left, right] + bs[i + 1..];
    SplitInMemory(m0, m1, bs, i, left, right);
    assert IsSplit(bs, i, r, left, right);
    SplitExtents(bs, i, r, left, right);
  }

  lemma ClearFlag(m0: seq<Word>, m1: seq<Word>, bs0: seq<Block>, bs: seq<Block>, i: nat)
    requires Headers(m1, bs) && Guards(m1, bs) && Extents(bs) && Extents(bs0) && i < |bs| && i < |bs0|
    requires bs[i].addr == bs0[i].addr && KeepsPayloads(m0, m1, bs0, -1)
    ensures var r, m2 := bs[i := bs[i].(free := false)], m1[bs[i].addr + FREE_AT := 0];
      Headers(m2, r) && Guards(m2, r) && AddrOf(r, 0) == AddrOf(bs, 0) && KeepsPayloads(m0, m2, bs0, -1)
  {
    var a := bs[i].addr + FREE_AT;
    FlagInMemory(m1, m1[a := 0], bs, i, 0);
    HeaderStoreKeepsPayloads(m1, bs0, i, a, 0);
    KeepsPayloadsTrans(m0, m1, m1[a := 0], bs0, -1);
  }

  lemma SplitThenUse(l: Layout, h: Heap, i: nat, n: int, bs: seq<Block>)
    requires i < |h.blocks| && h.blocks[i].size >= W32(n + HEADER + GUARD + MIN_BLOCK)
    requires bs == h.blocks[..i] + [Left(h.blocks[i], n).(free := true), Right(l, h.blocks[i], n)] + h.blocks[i + 1..]
    ensures bs[i].addr == h.blocks[i].addr && bs[i := bs[i].(free := false)] == Take(l, h, i, n).blocks
  {
  }

  /** A new block on top, with the last block linked to it. */
  lemma AppendResult(m0: seq<Word>, m2: seq<Word>, h: Heap, n: Word)
    requires WellFormed(h) && h.blocks != [] && Headers(m0, h.blocks) && Guards(m0, h.blocks)
    requires h.end + HEADER + n < RAM
    requires var last := h.blocks[|h.blocks| - 1].addr;
      0 <= last < TWO32 && last + NEXT_AT < RAM && m2 == BlockWritten(m0, h.end, n, 0, 0, last)[last + NEXT_AT := h.end]
    ensures var r := h.blocks + [Block(h.end, n, false)];
      Headers(m2, r) && Guards(m2, r) && AddrOf(r, 0) == AddrOf(h.blocks, 0) && KeepsPayloads(m0, m2, h.blocks, -1)
  {
    assert BlockOk(h.blocks[|h.blocks| - 1], h.end);
    AppendInMemory(m0, m2, h, Block(h.end, n, false));
  }

  lemma WrappedGuard(end: int, n: int)
    requires HEAP_START <= end < HEAP_END && end % 4 == 0 && n % 8 == 0 && 0 <= n < TWO32 && BoundWraps(end, n)
    ensures W32(end + HEADER + n) == end + HEADER + n - TWO32 && (end + HEADER + n - TWO32) % 4 == 0
  {
    AlignedSum(end + HEADER - TWO32, n);
  }

  /** Where the guard words of a tiling leave no gap, the wrapped stores touch
      headers and guard words only. */
  lemma WrapKeepsPayloads(m0: seq<Word>, m1: seq<Word>, h: Heap, n: Word)
    requires WellFormed(h) && Tiled(h) && h.blocks != [] && |m0| == RAM && BoundWraps(h.end, n)
    requires var guard, last := h.end + HEADER + n - TWO32, h.blocks[|h.blocks| - 1].addr;
      0 <= last < TWO32 && last + NEXT_AT < RAM
      && m1 == m0[h.end := MAGIC][h.end + SIZE_AT := n][h.end + FREE_AT := 0][h.end + NEXT_AT := 0]
               [h.end + PREV_AT := last][guard := MAGIC][last + NEXT_AT := h.end]
    ensures KeepsPayloads(m0, m1, h.blocks, -1)
  {
    var bs := h.blocks;
    TilesNext(bs, |bs| - 1, HEAP_START, h.end);
    WellFormedExtents(h);
    forall j | 0 <= j < |bs| ensures PayloadEnd(bs[j]) + GUARD <= h.end {
      assert j < |bs| - 1 ==> PayloadEnd(bs[j]) <= bs[|bs| - 1].addr;
    }
    HeaderOffPayloads(bs, -1, |bs| - 1, bs[|bs| - 1].addr + NEXT_AT);
  }

  lemma CoalesceNonEmpty(bs: seq<Block>, i: nat)
    requires i < |bs|
    ensures Coalesce(bs, i) != []
  {
  }

  lemma MarkResult(m: seq<Word>, h: Heap, i: nat)
    requires WellFormed(h) && Headers(m, h.blocks) && Guards(m, h.blocks) && |m| == RAM && i < |h.blocks|
    ensures var a := h.blocks[i].addr; 0 <= a && a % 4 == 0 && a + FREE_AT < RAM
    ensures var m1, r := m[h.blocks[i].addr + FREE_AT := 1], Mark(h.blocks, i);
      Headers(m1, r) && Guards(m1, r) && Apart(r) && Sizes(r) && KeepsPayloads(m, m1, h.blocks, i)
  {
    var bs := h.blocks;
    var a := bs[i].addr + FREE_AT;
    WellFormedExtents(h);
    WellFormedAligned(h);
    assert HeaderAt(m, bs, i);
    HeaderStoreKeepsPayloads(m, bs, i, a, 1);
    FlagInMemory(m, m[a := 1], bs, i, 1);
  }

  /** A payload word is no header word and no guard word. */
  lemma PayloadStore(m: seq<Word>, h: Heap, i: nat, a: int, w: Word)
    requires WellFormed(h) && Headers(m, h.blocks) && Guards(m, h.blocks)
    requires i < |h.blocks| && h.blocks[i].addr + HEADER <= a < PayloadEnd(h.blocks[i])
    ensures 0 <= a < |m| && Headers(m[a := w], h.blocks) && Guards(m[a := w], h.blocks)
    ensures KeepsPayloads(m, m[a := w], h.blocks, i)
  {
    WellFormedExtents(h);
    var bs, m1 := h.blocks, m[a := w];
    forall j | 0 <= j < |bs| ensures HeaderAt(m1, bs, j) && GuardAt(m1, bs, j) {
      assert HeaderAt(m, bs, j) && GuardAt(m, bs, j);
    }
  }

  /** What a valid heap looks like in memory, written out: the five header words of
      each block, its links both ways, and the guard word behind its payload, which
      the intended layout always has in place. */
  lemma RepresentedWords(l: Layout, m: seq<Word>, h: Heap, i: nat)
    requires Sound(l, h) && Headers(m, h.blocks) && Guards(m, h.blocks) && i < |h.blocks|
    ensures var b, k := h.blocks[i], |h.blocks| - 1;
      && 0 <= b.addr && b.addr % 4 == 0 && 0 < b.size && b.addr + 20 + b.size < |m|
      && m[b.addr] == 0xDEAD_BEEF && m[b.addr + 4] == b.size && (m[b.addr + 8] != 0 <==> b.free)
      && m[b.addr + 12] == (if i < k then h.blocks[i + 1].addr else 0)
      && m[b.addr + 16] == (if 0 < i then h.blocks[i - 1].addr else 0)
      && m[b.addr + 20 + b.size] == 0xDEAD_BEEF
  {
    var b := h.blocks[i];
    assert HeaderAt(m, h.blocks, i) && GuardAt(m, h.blocks, i) && BlockOk(b, h.end);
    assert Roomy(h.blocks, i);
  }

  /** The one store of TrimTop touches no payload and no size or flag. */
  lemma TrimHarmless(m0: seq<Word>, m1: seq<Word>, m2: seq<Word>, h: Heap, i: nat)
    requires WellFormed(h) && i < |h.blocks| && KeepsPayloads(m0, m1, h.blocks, i)
    requires m2 == m1 || exists a :: a in Addrs(Coalesce(h.blocks, i)) && 0 <= a && a + NEXT_AT < RAM && m2 == m1[a + NEXT_AT := 0]
    ensures KeepsPayloads(m0, m2, h.blocks, i)
    ensures Refusable(m1, h.blocks[i].addr) ==> Refusable(m2, h.blocks[i].addr)
    ensures Spoiled(m1, h.blocks[i].addr) ==> Spoiled(m2, h.blocks[i].addr)
  {
    if m2 != m1 {
      var a :| a in Addrs(Coalesce(h.blocks, i)) && 0 <= a && a + NEXT_AT < RAM && m2 == m1[a + NEXT_AT := 0];
      WellFormedExtents(h);
      CoalesceAddrs(h.blocks, i);
      UnlinkHarmless(m1, h.blocks, i, a);
      KeepsPayloadsTrans(m0, m1, m2, h.blocks, i);
    }
  }

  lemma PayloadsCheck(m: seq<Word>, h: Heap)
    requires WellFormed(h) && Headers(m, h.blocks) && Guards(m, h.blocks)
    ensures forall i :: 0 <= i < |h.blocks| ==> var ptr := h.blocks[i].addr + HEADER;
      Readable(m, h.end, ptr) && Check(m, h.end, ptr) == if h.blocks[i].free then DoubleFree else Freed
  {
    forall i | 0 <= i < |h.blocks| ensures var ptr := h.blocks[i].addr + HEADER;
      Readable(m, h.end, ptr) && Check(m, h.end, ptr) == if h.blocks[i].free then DoubleFree else Freed
    {
      ListedBlockChecks(m, h, i);
    }
  }

  /** On represented memory the checks pass a judged pointer exactly when it names
      a live block: Release then describes kfree. */
  lemma JudgedChecks(m: seq<Word>, h: Heap, ptr: Word)
    requires WellFormed(h) && Headers(m, h.blocks) && Guards(m, h.blocks) && Judged(h, ptr)
    ensures Readable(m, h.end, ptr) && (Check(m, h.end, ptr) == Freed <==> LiveIndex(h.blocks, ptr) < |h.blocks|)
  {
    if HEAP_START <= ptr - HEADER < h.end {
      var i :| 0 <= i < |h.blocks| && h.blocks[i].addr + HEADER == ptr;
      ListedBlockChecks(m, h, i);
      if h.blocks[i].free {
        FreeIsNotLive(h, i);
        NotLive(h.blocks, h.blocks, ptr);
      } else {
        LiveIndexOf(h, i);
      }
    } else {
      OutsideIsNotLive(h, ptr);
    }
  }

  lemma OutsideIsNotLive(h: Heap, ptr: int)
    requires WellFormed(h) && !(HEAP_START <= ptr - HEADER < h.end)
    ensures LiveIndex(h.blocks, ptr) == |h.blocks|
  {
    var i := LiveIndex(h.blocks, ptr);
    assert i < |h.blocks| ==> BlockOk(h.blocks[i], h.end);
  }

  /** What the checks say of a pointer whose header was left behind by a free. */
  lemma SecondCheck(m: seq<Word>, end: int, ptr: int, spoiled: bool)
    requires |m| == RAM && end < HEAP_END && HEAP_START <= ptr - HEADER && ptr < TWO32
    requires if spoiled then Spoiled(m, ptr - HEADER) else Refusable(m, ptr - HEADER)
    ensures Readable(m, end, ptr) && Check(m, end, ptr) != Freed <==> end <= ptr - HEADER || !spoiled
  {
    if end <= ptr - HEADER || !spoiled { RefusableIsRefused(m, end, ptr); }
    else { SpoiledIsUnreadable(m, end, ptr); }
  }

  lemma CoalesceIsSound(h: Heap, i: nat)
    requires Sound(Intended, h) && i < |h.blocks|
    ensures WellFormed(Heap(Coalesce(h.blocks, i), h.end))
  {
    CoalesceKeepsLaid(h.blocks, h.end, i);
  }

  class KernelHeap {
    const layout: Layout
    const mem: array<Word>
    var start: int
    var end: int
    var head: int
    ghost var blocks: seq<Block>

    ghost function State(): Heap
      reads this
    {
      Heap(blocks, end)
    }

    /** The words of memory represent the block list. */
    ghost predicate Linked()
      reads this, mem
    {
      && mem.Length == RAM && start == HEAP_START && head == AddrOf(blocks, 0)
      && Headers(mem[..], blocks) && Guards(mem[..], blocks)
    }

    ghost predicate Valid()
      reads this, mem
    {
      Linked() && Sound(layout, State())
    }

    /** heap_init on memory with arbitrary contents. */
    constructor (layout: Layout, mem: array<Word>)
      requires mem.Length == RAM
      ensures Valid() && this.layout == layout && this.mem == mem && State() == EMPTY
    {
      this.layout, this.mem := layout, mem;
      start, end, head := HEAP_START, HEAP_START, 0;
      blocks := [];
    }

    method Store(a: int, w: Word)
      requires 0 <= a < mem.Length && a % 4 == 0
      modifies mem
      ensures mem[..] == old(mem[..])[a := w]
    {
      mem[a] := w;
    }

    /** Assigns a field of the header at `block`. */
    method StoreField(block: int, field: int, w: Word)
      requires 0 <= block && block % 4 == 0 && field in {0, SIZE_AT, FREE_AT, NEXT_AT, PREV_AT} && block + field < mem.Length
      modifies mem
      ensures mem[..] == old(mem[..])[block + field := w]
    {
      Store(block + field, w);
    }

    /** Writes the guard word behind a payload of `size` bytes. */
    method StoreGuard(block: int, size: int)
      requires 0 <= block + HEADER + size < mem.Length && block % 4 == 0 && size % 4 == 0
      modifies mem
      ensures mem[..] == old(mem[..])[block + HEADER + size := MAGIC]
    {
      Store(block + HEADER + size, MAGIC);
    }

    /** Writes a whole header and the guard word behind the payload. */
    method WriteBlock(addr: int, size: Word, free: Word, next: Word, prev: Word)
      requires mem.Length == RAM && HEAP_START <= addr && addr % 4 == 0 && size % 4 == 0
      requires addr + HEADER + size < RAM
      modifies mem
      ensures mem[..] == BlockWritten(old(mem[..]), addr, size, free, next, prev)
    {
      StoreField(addr, 0, MAGIC);
      StoreField(addr, SIZE_AT, size);
      StoreField(addr, FREE_AT, free);
      StoreField(addr, NEXT_AT, next);
      StoreField(addr, PREV_AT, prev);
      StoreGuard(addr, size);
    }

    /** The stores of a split that follow the writing of the right part. */
    method WriteLeftPart(current: int, n: Word, newBlock: Word, after: Word)
      requires 0 <= current && current + HEADER + n < mem.Length && current % 4 == 0 && n % 4 == 0
      requires after != 0 ==> after % 4 == 0 && after + HEADER <= mem.Length
      modifies mem
      ensures mem[..] ==
        (if after != 0 then old(mem[..])[after + PREV_AT := newBlock] else old(mem[..]))
        [current + SIZE_AT := n][current + NEXT_AT := newBlock][current + HEADER + n := MAGIC]
    {
      if after != 0 { StoreField(after, PREV_AT, newBlock); }
      StoreField(current, SIZE_AT, n);
      StoreField(current, NEXT_AT, newBlock);
      StoreGuard(current, n);
    }

    /** The stores that cut block b in two, in program order. */
    method WriteSplit(current: int, n: Word, newBlock: Word, rest: Word, ghost b: Block, ghost prev: int, ghost next: Word)
      requires mem.Length == RAM && b.addr == current
      requires current % 4 == 0 && n % 4 == 0 && newBlock % 4 == 0 && rest % 4 == 0 && next % 4 == 0
      requires SplitFits(mem[..], b, Block(current, n, true), Block(newBlock, rest, true), prev, next)
      modifies mem
      ensures SplitStores(old(mem[..]), mem[..], b, Block(current, n, true), Block(newBlock, rest, true), prev, next)
    {
      ghost var m0 := mem[..];
      var after := mem[current + NEXT_AT];
      WriteBlock(newBlock, rest, 1, after, current);
      BlockIsWritten(m0, newBlock, rest, 1, after, current);
      ghost var m1 := mem[..];
      WriteLeftPart(current, n, newBlock, after);
      SplitFinished(m0, m1, mem[..], b, Block(current, n, true), Block(newBlock, rest, true), prev, next);
    }

    /** Where the parts of block i go, and the stores that put them there. */
    method CutBlock(current: int, n: Word, ghost i: nat)
      requires Valid() && i < |blocks| && current == blocks[i].addr && Fits(blocks[i], n) && 8 <= n && n % 8 == 0
      requires blocks[i].size >= W32(n + HEADER + GUARD + MIN_BLOCK)
      modifies mem
      ensures SplitStores(old(mem[..]), mem[..], blocks[i], Left(blocks[i], n).(free := true), Right(layout, blocks[i], n),
                          AddrOf(blocks, i - 1), AddrOf(blocks, i + 1))
    {
      SplitPlaces(layout, mem[..], State(), i, n);
      SplitAligned(layout, State(), i, n);
      var newBlock := current + HEADER + n + (if layout.Intended? then GUARD else 0);
      var rest := W32(mem[current + SIZE_AT] - n - HEADER - GUARD);
      WriteSplit(current, n, newBlock, rest, blocks[i], AddrOf(blocks, i - 1), AddrOf(blocks, i + 1));
    }

    method Split(current: int, n: Word, ghost i: nat)
      requires Valid() && i < |blocks| && current == blocks[i].addr && Fits(blocks[i], n) && 8 <= n && n % 8 == 0
      requires blocks[i].size >= W32(n + HEADER + GUARD + MIN_BLOCK)
      modifies this`blocks, mem
      ensures Linked() && Extents(blocks)
      ensures i < |blocks| && blocks[i].addr == current
      ensures blocks[i := blocks[i].(free := false)] == Take(layout, old(State()), i, n).blocks
      ensures KeepsPayloads(old(mem[..]), mem[..], old(blocks), -1)
    {
      ghost var m0, b, bs := mem[..], blocks[i], blocks;
      ghost var left, right := Left(b, n).(free := true), Right(layout, b, n);
      WellFormedExtents(State());
      CutBlock(current, n, i);
      SplitResult(m0, mem[..], bs, i, left, right);
      SplitThenUse(layout, State(), i, n, bs[..i] + [left, right] + bs[i + 1..]);
      blocks := bs[..i] + [left, right] + bs[i + 1..];
    }

    /** Splits block i when it is large enough. */
    method SplitIfLarge(current: int, n: Word, ghost i: nat)
      requires Valid() && i < |blocks| && current == blocks[i].addr && Fits(blocks[i], n) && 8 <= n && n % 8 == 0
      modifies this`blocks, mem
      ensures Linked() && Extents(blocks)
      ensures i < |blocks| && blocks[i].addr == current
      ensures blocks[i := blocks[i].(free := false)] == Take(layout, old(State()), i, n).blocks
      ensures KeepsPayloads(old(mem[..]), mem[..], old(blocks), -1)
    {
      WellFormedExtents(State());
      assert HeaderAt(mem[..], blocks, i);
      if mem[current + SIZE_AT] >= W32(n + HEADER + GUARD + MIN_BLOCK) {
        Split(current, n, i);
      }
    }

    /** The search's answer: block i, split if need be, becomes used. */
    method TakeBlock(current: int, n: Word, ghost i: nat) returns (ptr: int)
      requires Valid() && i < |blocks| && current == blocks[i].addr && Fits(blocks[i], n) && 8 <= n && n % 8 == 0
      modifies this`blocks, mem
      ensures Linked() && State() == Take(layout, old(State()), i, n) && ptr == current + HEADER
      ensures KeepsPayloads(old(mem[..]), mem[..], old(blocks), -1)
    {
      ghost var m0, h := mem[..], State();
      WellFormedExtents(h);
      WellFormedAligned(h);
      SplitIfLarge(current, n, i);
      ClearFlag(m0, mem[..], h.blocks, blocks, i);
      StoreField(current, FREE_AT, 0);
      blocks := blocks[i := blocks[i].(free := false)];
      ptr := current + HEADER;
    }

    /** kmalloc, for every request. The heap stays valid exactly when the request
        does not wrap. */
    method Kmalloc(size: Word) returns (ptr: int)
      requires Valid()
      modifies this`head, this`end, this`blocks, mem
      ensures Answer(State(), ptr) == Allocate(layout, old(State()), size)
      ensures Valid() <==> !BoundWraps(old(end), AlignUp(size))
      ensures layout.Intended? || Valid() ==> KeepsPayloads(old(mem[..]), mem[..], old(blocks), -1)
      ensures ptr == 0 ==> mem[..] == old(mem[..])
    {
      if size == 0 { return 0; }
      var n := AlignUp(size);
      if n < size { return 0; }
      if n > EarlyLimit(end) { return 0; }
      AlignUpRounds(size);
      if head == 0 {
        ptr := FirstBlock(n);
        return;
      }
      var current, fits := Search(n);
      if fits {
        assert BlockOk(blocks[FirstFit(blocks, n)], end);
        TakeKeepsSound(layout, State(), FirstFit(blocks, n), n);
        ptr := TakeBlock(current, n, FirstFit(blocks, n));
      } else {
        ptr := AppendBlock(current, n);
      }
    }

    /** The loop of kmalloc: the first free block that fits, or the last block. */
    method Search(n: Word) returns (current: int, fits: bool)
      requires Valid() && head != 0
      ensures blocks != [] && (fits <==> FirstFit(blocks, n) < |blocks|)
      ensures current == blocks[if fits then FirstFit(blocks, n) else |blocks| - 1].addr
    {
      current := head;
      ghost var i := 0;
      assert BlockOk(blocks[0], end);
      while current != 0
        invariant i < |blocks| && HEAP_START <= current == blocks[i].addr
        invariant forall j :: 0 <= j < i ==> !Fits(blocks[j], n)
        decreases |blocks| - i
      {
        assert HeaderAt(mem[..], blocks, i);
        assert i + 1 < |blocks| ==> BlockOk(blocks[i + 1], end);
        if mem[current + FREE_AT] != 0 && mem[current + SIZE_AT] >= n {
          FirstFitIs(blocks, n, i);
          return current, true;
        }
        if mem[current + NEXT_AT] == 0 { break; }
        current := mem[current + NEXT_AT];
        i := i + 1;
      }
      FirstFitIs(blocks, n, |blocks|);
      return current, false;
    }

    /** The first allocation: the heap has no block yet. */
    method FirstBlock(n: Word) returns (ptr: int)
      requires Valid() && head == 0 && 8 <= n && n % 8 == 0 && n <= EarlyLimit(end)
      modifies this`head, this`end, this`blocks, mem
      ensures Valid() && Answer(State(), ptr) == AllocateFirst(layout, old(State()), n)
      ensures ptr == 0 ==> mem[..] == old(mem[..])
    {
      ghost var h := State();
      HeadIsNotNull(h);
      FirstKeepsWellFormed(layout, h, n);
      FirstBounds(layout, n);
      var newEnd := W32(end + HEADER + n + (if layout.Intended? then GUARD else 0));
      if newEnd >= HEAP_END { return 0; }
      PutFirst(n);
      head := end;
      ptr := end + HEADER;
      end := newEnd;
      assert State() == AllocateFirst(layout, h, n).heap;
    }

    /** The stores of the first block. */
    method PutFirst(n: Word)
      requires Valid() && blocks == [] && 0 < n && n % 8 == 0 && end + HEADER + n < HEAP_END
      modifies this`blocks, mem
      ensures blocks == [Block(end, n, false)] && Headers(mem[..], blocks) && Guards(mem[..], blocks)
    {
      ghost var m0, h := mem[..], State();
      EightIsTwiceFour(n);
      WriteBlock(end, n, 0, 0, 0);
      AppendInMemory(m0, mem[..], h, Block(end, n, false));
      blocks := [Block(end, n, false)];
      assert [] + blocks == blocks;
    }

    /** No block fits: a new one is written at heap_end behind the last. */
    method AppendBlock(last: int, n: Word) returns (ptr: int)
      requires Valid() && blocks != [] && last == blocks[|blocks| - 1].addr
      requires 8 <= n && n % 8 == 0 && n <= EarlyLimit(end)
      modifies this`end, this`blocks, mem
      ensures Answer(State(), ptr) == Append(old(State()), n)
      ensures Valid() <==> !BoundWraps(old(end), n)
      ensures layout.Intended? || Valid() ==> KeepsPayloads(old(mem[..]), mem[..], old(blocks), -1)
      ensures ptr == 0 ==> mem[..] == old(mem[..])
    {
      ghost var h := State();
      var newEnd := W32(end + HEADER + n + GUARD);
      if newEnd < end { return 0; }
      if newEnd >= HEAP_END { return 0; }
      AppendBound(end, n);
      AppendKeepsWellFormed(h, n);
      if BoundWraps(end, n) {
        PutWrapped(last, n);
      } else {
        AppendKeepsSound(layout, h, n);
        PutOnTop(last, n);
      }
      ptr := end + HEADER;
      end := newEnd;
    }

    /** The same stores for the wrapping request: the address of the guard word
        wraps too, to just below the new top. */
    method WriteWrapped(last: int, n: Word)
      requires Valid() && blocks != [] && last == blocks[|blocks| - 1].addr && n % 8 == 0 && BoundWraps(end, n)
      modifies mem
      ensures var guard := end + HEADER + n - TWO32;
        && end - GUARD <= guard < HEAP_END && 0 <= last && last + NEXT_AT < RAM
        && mem[..] == old(mem[..])[end := MAGIC][end + SIZE_AT := n][end + FREE_AT := 0][end + NEXT_AT := 0]
                      [end + PREV_AT := last][guard := MAGIC][last + NEXT_AT := end]
    {
      WellFormedAligned(State());
      WrappedGuard(end, n);
      assert BlockOk(blocks[|blocks| - 1], end);
      StoreField(end, 0, MAGIC);
      StoreField(end, SIZE_AT, n);
      StoreField(end, FREE_AT, 0);
      StoreField(end, NEXT_AT, 0);
      StoreField(end, PREV_AT, last);
      Store(W32(end + HEADER + n), MAGIC);
      StoreField(last, NEXT_AT, end);
    }

    method PutWrapped(last: int, n: Word)
      requires Valid() && blocks != [] && last == blocks[|blocks| - 1].addr && n % 8 == 0 && BoundWraps(end, n)
      modifies this`blocks, mem
      ensures blocks == old(blocks) + [Block(end, n, false)]
      ensures var guard := end + HEADER + n - TWO32;
        && end - GUARD <= guard < HEAP_END && 0 <= last && last + NEXT_AT < RAM
        && mem[..] == old(mem[..])[end := MAGIC][end + SIZE_AT := n][end + FREE_AT := 0][end + NEXT_AT := 0]
                      [end + PREV_AT := last][guard := MAGIC][last + NEXT_AT := end]
      ensures layout.Intended? ==> KeepsPayloads(old(mem[..]), mem[..], old(blocks), -1)
    {
      ghost var m0, h := mem[..], State();
      assert BlockOk(blocks[|blocks| - 1], end);
      WriteWrapped(last, n);
      if layout.Intended? { WrapKeepsPayloads(m0, mem[..], h, n); }
      blocks := h.blocks + [Block(end, n, false)];
    }

    /** The stores of a new block at heap_end, linked behind the last. */
    method PutOnTop(last: int, n: Word)
      requires Valid() && blocks != [] && last == blocks[|blocks| - 1].addr && n % 8 == 0 && end + HEADER + n + GUARD < HEAP_END
      modifies this`blocks, mem
      ensures Linked() && blocks == old(blocks) + [Block(end, n, false)]
      ensures KeepsPayloads(old(mem[..]), mem[..], old(blocks), -1)
    {
      ghost var m0, h := mem[..], State();
      WellFormedAligned(h);
      EightIsTwiceFour(n);
      assert BlockOk(blocks[|blocks| - 1], end);
      WriteBlock(end, n, 0, 0, last);
      StoreField(last, NEXT_AT, end);
      AppendResult(m0, mem[..], h, n);
      blocks := h.blocks + [Block(end, n, false)];
    }

    // ----- kfree

    /** The represented list, which may be damaged in the coded layout. */
    ghost predicate Chained()
      reads this, mem
    {
      Linked() && Apart(blocks) && Sizes(blocks)
    }

    /** The stores of kfree's merge with the next block, in program order. */
    method WriteMergeForward(block: Word, ghost b: Block, ghost prev: int, ghost c: Block, ghost next: Word)
      requires mem.Length == RAM && block == b.addr && HEAP_START <= block && block + HEADER <= c.addr
      requires block % 4 == 0 && next % 4 == 0 && Joined(b, c).size % 4 == 0
      requires BlockAt(mem[..], b, prev, c.addr) && BlockAt(mem[..], c, b.addr, next)
      requires next == 0 || (block + HEADER <= next && next + HEADER <= RAM)
      requires var y := PayloadEnd(Joined(b, c)); block + HEADER <= y < RAM && y != next + PREV_AT
      modifies mem
      ensures var j := Joined(b, c); MergeStores(old(mem[..]), mem[..], block, j.size, next, PayloadEnd(j))
    {
      ghost var m0 := mem[..];
      var absorbed := mem[block + NEXT_AT];
      StoreField(block, SIZE_AT, W32(mem[block + SIZE_AT] + HEADER + mem[absorbed + SIZE_AT] + GUARD));
      StoreField(block, NEXT_AT, mem[absorbed + NEXT_AT]);
      StoreGuard(block, mem[block + SIZE_AT]);
      if mem[block + NEXT_AT] != 0 {
        StoreField(mem[block + NEXT_AT], PREV_AT, block);
      }
      MergeWritten(m0, mem[..], block, Joined(b, c).size, next, PayloadEnd(Joined(b, c)));
    }

    /** The stores of kfree's merge into the previous block, in program order. */
    method WriteMergeBackward(block: Word, ghost b: Block, ghost prev: int, ghost c: Block, ghost next: Word)
      requires mem.Length == RAM && block == c.addr && HEAP_START <= b.addr
      requires b.addr % 4 == 0 && next % 4 == 0 && Joined(b, c).size % 4 == 0
      requires BlockAt(mem[..], b, prev, c.addr) && BlockAt(mem[..], c, b.addr, next)
      requires next == 0 || (b.addr + HEADER <= next && next + HEADER <= RAM)
      requires var y := PayloadEnd(Joined(b, c)); b.addr + HEADER <= y < RAM && y != next + PREV_AT
      requires var y := PayloadEnd(Joined(b, c)); y != block + NEXT_AT && y != block + PREV_AT && b.addr + HEADER <= block
      modifies mem
      ensures var j := Joined(b, c); MergeStores(old(mem[..]), mem[..], b.addr, j.size, next, PayloadEnd(j))
    {
      ghost var m0 := mem[..];
      var into := mem[block + PREV_AT];
      StoreField(into, SIZE_AT, W32(mem[into + SIZE_AT] + HEADER + mem[block + SIZE_AT] + GUARD));
      StoreGuard(into, mem[into + SIZE_AT]);
      StoreField(into, NEXT_AT, mem[block + NEXT_AT]);
      if mem[block + NEXT_AT] != 0 {
        StoreField(mem[block + NEXT_AT], PREV_AT, into);
      }
      MergeWritten(m0, mem[..], into, Joined(b, c).size, next, PayloadEnd(Joined(b, c)));
    }

    method AbsorbForward(block: Word, ghost i: nat)
      requires Chained() && i + 1 < |blocks| && block == blocks[i].addr && Near(blocks, i)
      modifies this`blocks, mem
      ensures Chained() && blocks == Merge(old(blocks), i)
      ensures var c := Joined(old(blocks[i]), old(blocks[i + 1]));
        MergeStores(old(mem[..]), mem[..], block, c.size, AddrOf(old(blocks), i + 2), PayloadEnd(c))
    {
      ghost var m0, bs := mem[..], blocks;
      assert HeaderAt(m0, bs, i) && HeaderAt(m0, bs, i + 1);
      WriteMergeForward(block, bs[i], AddrOf(bs, i - 1), bs[i + 1], AddrOf(bs, i + 2));
      MergeInMemory(m0, mem[..], bs, i);
      blocks := Merge(bs, i);
    }

    method AbsorbBackward(block: Word, ghost i: nat)
      requires Chained() && 0 < i < |blocks| && block == blocks[i].addr && Near(blocks, i - 1)
      requires (PayloadEnd(Joined(blocks[i - 1], blocks[i])) - block) !in {12, 16}
      modifies this`blocks, mem
      ensures Chained() && blocks == Merge(old(blocks), i - 1)
      ensures var c := Joined(old(blocks[i - 1]), old(blocks[i]));
        MergeStores(old(mem[..]), mem[..], c.addr, c.size, AddrOf(old(blocks), i + 1), PayloadEnd(c))
    {
      ghost var m0, bs := mem[..], blocks;
      assert HeaderAt(m0, bs, i - 1) && HeaderAt(m0, bs, i);
      WriteMergeBackward(block, bs[i - 1], AddrOf(bs, i - 2), bs[i], AddrOf(bs, i + 1));
      MergeInMemory(m0, mem[..], bs, i - 1);
      blocks := Merge(bs, i - 1);
    }

    /** Marks block i free and merges it with its free neighbours. */
    method FreeAndMerge(block: Word, ghost i: nat)
      requires Valid() && i < |blocks| && block == blocks[i].addr && !GoesAstray(State(), block + HEADER)
      requires LiveIndex(blocks, block + HEADER) == i
      modifies this`blocks, mem
      ensures Chained() && blocks == Coalesce(old(blocks), i)
      ensures KeepsPayloads(old(mem[..]), mem[..], old(blocks), i)
      ensures if SpoilsHeader(old(State()), block + HEADER) then Spoiled(mem[..], block) else Refusable(mem[..], block)
    {
      ghost var m0, h := mem[..], State();
      ghost var hi := if i + 1 < |blocks| && blocks[i + 1].free then i + 1 else i;
      MarkBlock(block, i);
      ghost var m1 := mem[..];
      MergeForward(block, i, h, hi);
      ghost var m2 := mem[..];
      KeepsPayloadsTrans(m0, m1, m2, h.blocks, i);
      MergeBackward(block, i, h, hi);
      KeepsPayloadsTrans(m0, m2, mem[..], h.blocks, i);
    }

    method MarkBlock(block: Word, ghost i: nat)
      requires Valid() && i < |blocks| && block == blocks[i].addr
      modifies this`blocks, mem
      ensures Chained() && blocks == Mark(old(blocks), i)
      ensures KeepsPayloads(old(mem[..]), mem[..], old(blocks), i)
    {
      ghost var bs := blocks;
      MarkResult(mem[..], State(), i);
      StoreField(block, FREE_AT, 1);
      blocks := Mark(bs, i);
    }

    method MergeForward(block: Word, ghost i: nat, ghost h: Heap, ghost hi: nat)
      requires Chained() && WellFormed(h) && Tidy(h.blocks) && end == h.end && i < |h.blocks| && block == h.blocks[i].addr
      requires blocks == Mark(h.blocks, i) && hi == if i + 1 < |h.blocks| && h.blocks[i + 1].free then i + 1 else i
      modifies this`blocks, mem
      ensures Chained() && blocks == MergeNext(old(blocks), i) && Between(h, i, blocks, hi)
      ensures KeepsPayloads(old(mem[..]), mem[..], h.blocks, i)
      ensures Refusable(mem[..], block)
    {
      AfterForward(h, i);
      AbsorbNextIfFree(block, i, h);
      RefusableAfterForward(mem[..], h, i, blocks, hi);
    }

    method AbsorbNextIfFree(block: Word, ghost i: nat, ghost h: Heap)
      requires Chained() && WellFormed(h) && Tidy(h.blocks) && end == h.end && i < |h.blocks| && block == h.blocks[i].addr
      requires blocks == Mark(h.blocks, i)
      modifies this`blocks, mem
      ensures Chained() && blocks == MergeNext(old(blocks), i)
      ensures KeepsPayloads(old(mem[..]), mem[..], h.blocks, i)
    {
      ghost var m0 := mem[..];
      NextBlockReads(m0, h, i);
      var next := mem[block + NEXT_AT];
      if next != 0 && next >= start && next < end && mem[next + FREE_AT] != 0 {
        ForwardGuard(h, i);
        AbsorbForward(block, i);
        ForwardKeepsPayloads(m0, mem[..], h, i);
      }
    }

    method MergeBackward(block: Word, ghost i: nat, ghost h: Heap, ghost hi: nat)
      requires Chained() && WellFormed(h) && end == h.end && i < |h.blocks| && i < |blocks| && block == h.blocks[i].addr
      requires Between(h, i, blocks, hi) && !GuardHitsLinks(blocks, i) && Refusable(mem[..], block)
      modifies this`blocks, mem
      ensures Chained() && blocks == MergePrev(old(blocks), i)
      ensures KeepsPayloads(old(mem[..]), mem[..], h.blocks, i)
      ensures if GuardHitsSize(old(blocks), i) then Spoiled(mem[..], block) else Refusable(mem[..], block)
    {
      ghost var m0, n := mem[..], blocks;
      assert HeaderAt(m0, n, i);
      assert 0 < i ==> HeaderAt(m0, n, i - 1) && BlockOk(h.blocks[i - 1], end);
      var prev := mem[block + PREV_AT];
      if prev != 0 && prev >= start && prev < end && mem[prev + FREE_AT] != 0 {
        BackwardGuard(h, i, n, hi);
        AbsorbBackward(block, i);
        BackwardKeepsPayloads(m0, mem[..], h, i, n, hi);
        HeaderAfterBackward(m0, mem[..], h, i, n, hi);
      }
    }

    /** The last block of the list. */
    method LastBlock() returns (last: int)
      requires Chained() && blocks != []
      ensures last == blocks[|blocks| - 1].addr
    {
      last := head;
      ghost var k := 0;
      while last != 0 && mem[last + NEXT_AT] != 0
        invariant k < |blocks| && last == blocks[k].addr && HeaderAt(mem[..], blocks, k)
        decreases |blocks| - k
      {
        assert HeaderAt(mem[..], blocks, k + 1);
        last := mem[last + NEXT_AT];
        k := k + 1;
      }
      assert k == |blocks| - 1;
    }

    /** Unlinks the last block from the one before it. */
    method Unlink(last: int)
      requires Chained() && 2 <= |blocks| && last == blocks[|blocks| - 1].addr && Extents(blocks) && Aligned(blocks)
      modifies this`blocks, mem
      ensures Linked() && blocks == old(blocks[..|blocks| - 1])
      ensures exists a :: a in Addrs(old(blocks)) && 0 <= a && a + NEXT_AT < RAM
                && mem[..] == old(mem[..])[a + NEXT_AT := 0]
    {
      ghost var m0, bs := mem[..], blocks;
      ghost var k := |bs| - 1;
      assert HeaderAt(m0, bs, k) && HeaderAt(m0, bs, k - 1) && bs[k - 1].addr in Addrs(bs);
      StoreField(mem[last + PREV_AT], NEXT_AT, 0);
      UnlinkInMemory(m0, mem[..], bs);
      blocks := bs[..k];
    }

    /** Lowers heap_end over a free top block, or empties the heap. */
    method TrimTop()
      requires Chained() && blocks != [] && (layout.Intended? ==> Extents(blocks) && Aligned(blocks))
      modifies this`head, this`end, this`blocks, mem
      ensures Linked() && State() == Trim(layout, old(blocks), old(end))
      ensures mem[..] == old(mem[..]) || exists a :: a in Addrs(old(blocks)) && 0 <= a && a + NEXT_AT < RAM
                                           && mem[..] == old(mem[..])[a + NEXT_AT := 0]
    {
      assert HeaderAt(mem[..], blocks, 0) && HeaderAt(mem[..], blocks, |blocks| - 1);
      if head != 0 && mem[head + FREE_AT] != 0 && mem[head + NEXT_AT] == 0 {
        end := start;
        head := 0;
        blocks := [];
      } else {
        var last := LastBlock();
        if last != 0 && mem[last + FREE_AT] != 0 {
          if layout.Intended? { Unlink(last); }
          end := last;
        }
      }
    }

    /** What kfree does once its checks have passed. */
    method FreeBlock(block: Word, ghost i: nat)
      requires Valid() && i < |blocks| && block == blocks[i].addr && LiveIndex(blocks, block + HEADER) == i
      requires !GoesAstray(State(), block + HEADER)
      modifies this`head, this`end, this`blocks, mem
      ensures Linked() && State() == Release(layout, old(State()), block + HEADER)
      ensures KeepsPayloads(old(mem[..]), mem[..], old(blocks), i)
      ensures if SpoilsHeader(old(State()), block + HEADER) then Spoiled(mem[..], block) else Refusable(mem[..], block)
      ensures end < HEAP_END
    {
      ghost var m0, h := mem[..], State();
      if layout.Intended? {
        CoalesceIsSound(h, i);
        WellFormedExtents(Heap(Coalesce(h.blocks, i), h.end));
        WellFormedAligned(Heap(Coalesce(h.blocks, i), h.end));
      }
      FreeAndMerge(block, i);
      CoalesceNonEmpty(h.blocks, i);
      ReleaseLowersTop(layout, h, i);
      ghost var m1 := mem[..];
      TrimTop();
      TrimHarmless(m0, m1, mem[..], h, i);
    }

    /** The checks at the start of kfree, on memory in any condition. A block of
        a valid heap fails none of them but the last, and that one exactly when it
        is free already. */
    method CheckPointer(ptr: Word) returns (v: Verdict)
      requires mem.Length == RAM && start == HEAP_START && Readable(mem[..], end, ptr)
      ensures v == Check(mem[..], end, ptr)
      ensures Valid() ==> forall i :: 0 <= i < |blocks| && blocks[i].addr + HEADER == ptr ==>
        v == if blocks[i].free then DoubleFree else Freed
    {
      if Valid() { PayloadsCheck(mem[..], State()); }
      if ptr == 0 { return NullPointer; }
      var block := W32(ptr - HEADER);
      if block < start || block >= end { return InvalidHeader; }
      if mem[block] != MAGIC { return HeaderCorrupted; }
      var tail := W32(block + HEADER + mem[block + SIZE_AT]);
      if mem[tail] != MAGIC { return TailCorrupted; }
      if mem[block + SIZE_AT] == 0 || tail > end { return HeapCorrupted; }
      if mem[block + FREE_AT] != 0 { return DoubleFree; }
      return Freed;
    }

    /** kfree. The pointer is one that a check refuses, whatever the condition of
        the heap, or the payload of a listed block. After a successful kfree the
        checks read mapped words and refuse the same pointer exactly when its
        header is above the new top or was not spoiled. */
    method Kfree(ptr: Word) returns (v: Verdict)
      requires mem.Length == RAM && start == HEAP_START && Readable(mem[..], end, ptr)
      requires Check(mem[..], end, ptr) == Freed ==>
        Valid() && LiveIndex(blocks, ptr) < |blocks| && (layout.Coded? ==> !GoesAstray(State(), ptr))
      modifies this`head, this`end, this`blocks, mem
      ensures v == Check(old(mem[..]), old(end), ptr)
      ensures v != Freed ==> mem[..] == old(mem[..]) && head == old(head) && State() == old(State())
      ensures old(Valid()) ==>
        && (v == Freed <==> LiveIndex(old(blocks), ptr) < |old(blocks)|)
        && Linked() && State() == Release(layout, old(State()), ptr)
        && KeepsPayloads(old(mem[..]), mem[..], old(blocks), LiveIndex(old(blocks), ptr))
      ensures v == Freed ==>
        (Readable(mem[..], end, ptr) && Check(mem[..], end, ptr) != Freed
         <==> end <= ptr - HEADER || !SpoilsHeader(old(State()), ptr))
      ensures layout.Intended? && old(Valid()) ==> Valid() && Readable(mem[..], end, ptr) && Check(mem[..], end, ptr) != Freed
    {
      if Valid() && LiveIndex(blocks, ptr) < |blocks| { ListedBlockChecks(mem[..], State(), LiveIndex(blocks, ptr)); }
      v := CheckPointer(ptr);
      if v == Freed { FreeChecked(ptr); }
    }

    /** kfree behind its checks. */
    method FreeChecked(ptr: Word)
      requires Valid() && LiveIndex(blocks, ptr) < |blocks| && (layout.Coded? ==> !GoesAstray(State(), ptr))
      modifies this`head, this`end, this`blocks, mem
      ensures Linked() && State() == Release(layout, old(State()), ptr)
      ensures KeepsPayloads(old(mem[..]), mem[..], old(blocks), LiveIndex(old(blocks), ptr))
      ensures Readable(mem[..], end, ptr) && Check(mem[..], end, ptr) != Freed
              <==> end <= ptr - HEADER || !SpoilsHeader(old(State()), ptr)
      ensures layout.Intended? ==> Valid() && !SpoilsHeader(old(State()), ptr)
    {
      ghost var i, h := LiveIndex(blocks, ptr), State();
      assert BlockOk(h.blocks[i], h.end);
      if layout.Intended? {
        IntendedNeverAstray(h, ptr);
        ReleaseKeepsInv(h, ptr);
      }
      FreeBlock(W32(ptr - HEADER), i);
      SecondCheck(mem[..], end, ptr, SpoilsHeader(h, ptr));
    }

    /** The owner of a live block writes a word of its payload. */
    method WritePayload(a: int, w: Word, ghost i: nat)
      requires Valid() && i < |blocks| && !blocks[i].free && blocks[i].addr + HEADER <= a < PayloadEnd(blocks[i]) && a % 4 == 0
      modifies mem
      ensures Valid() && 0 <= a < mem.Length && mem[..] == old(mem[..])[a := w]
      ensures KeepsPayloads(old(mem[..]), mem[..], blocks, i)
    {
      PayloadStore(mem[..], State(), i, a, w);
      Store(a, w);
    }
  }
}

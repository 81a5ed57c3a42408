/** Where the words written by kfree lie: the guard words of its two merges, and
    the links it rewrites. */
module HeapFree {
  import opened Words
  import opened HeapSpec
  import opened HeapLaws
  import opened HeapMemory

  lemma JoinedEnd(b: Block, c: Block)
    requires 0 <= b.size && 0 <= c.size && b.size + c.size + HEADER + GUARD < TWO32
    ensures Joined(b, c).size == b.size + HEADER + c.size + GUARD
    ensures PayloadEnd(Joined(b, c)) == PayloadEnd(c) + GUARD - (c.addr - PayloadEnd(b))
    ensures PayloadEnd(b) + HEADER <= PayloadEnd(Joined(b, c))
    ensures b.addr % 4 == 0 && b.size % 8 == 0 && c.size % 8 == 0 ==>
      Joined(b, c).size % 8 == 0 && PayloadEnd(Joined(b, c)) % 4 == 0
  {
    if b.addr % 4 == 0 && b.size % 8 == 0 && c.size % 8 == 0 {
      EightSum(b.size, c.size);
      AlignedSum(b.addr + HEADER, Joined(b, c).size);
    }
  }

  ghost function Addrs(bs: seq<Block>): set<int> {
    set k | 0 <= k < |bs| :: bs[k].addr
  }

  lemma MergeAddrs(bs: seq<Block>, i: nat)
    requires i + 1 < |bs|
    ensures Addrs(Merge(bs, i)) <= Addrs(bs)
  {
    MergeShape(bs, i);
    forall k | 0 <= k < |Merge(bs, i)| ensures Merge(bs, i)[k].addr in Addrs(bs) { MergedAddr(bs, Merge(bs, i), i, k); }
  }

  lemma MergedAddr(bs: seq<Block>, r: seq<Block>, i: nat, k: nat)
    requires i + 1 < |bs| && |r| == |bs| - 1 && k < |r|
    requires forall j :: 0 <= j < |r| ==> r[j].addr == bs[if j <= i then j else j + 1].addr
    ensures r[k].addr in Addrs(bs)
  {
    var j := if k <= i then k else k + 1;
    assert bs[j].addr == r[k].addr;
  }

  lemma MarkAddrs(bs: seq<Block>, i: nat)
    requires i < |bs|
    ensures Addrs(Mark(bs, i)) == Addrs(bs)
  {
    assert forall k :: 0 <= k < |bs| ==> Mark(bs, i)[k].addr == bs[k].addr;
  }

  /** Coalescing introduces no new block address. */
  lemma CoalesceAddrs(bs: seq<Block>, i: nat)
    requires i < |bs|
    ensures Addrs(Coalesce(bs, i)) <= Addrs(bs)
  {
    MarkAddrs(bs, i);
    var m := Mark(bs, i);
    var n := MergeNext(m, i);
    if n != m { MergeAddrs(m, i); }
    if 0 < i && n[i - 1].free { MergeAddrs(n, i - 1); }
  }

  /** A guard word behind blocks lo..hi, of which only block i may be live. */
  lemma GuardOffPayloads(bs: seq<Block>, i: int, lo: nat, hi: nat, y: int)
    requires Extents(bs) && lo <= hi < |bs| && bs[lo].addr <= y
    requires forall j :: lo <= j <= hi && j != i ==> bs[j].free
    requires hi + 1 < |bs| ==> y <= bs[hi + 1].addr + 8
    ensures OffPayloads(bs, i, y)
  {
  }

  /** The merge with the next block: its guard word stays near. */
  lemma ForwardGuard(h: Heap, i: nat)
    requires WellFormed(h) && Tidy(h.blocks) && i + 1 < |h.blocks| && h.blocks[i + 1].free
    ensures i + 2 < |h.blocks| && Near(Mark(h.blocks, i), i)
    ensures var c := Joined(Mark(h.blocks, i)[i], h.blocks[i + 1]);
      && c.size % 8 == 0 && 8 <= c.size < 0x100_0000 && PayloadEnd(c) <= h.blocks[i + 2].addr + 4
      && OffPayloads(h.blocks, i, PayloadEnd(c))
  {
    var bs := h.blocks;
    assert BlockOk(bs[i], h.end) && BlockOk(bs[i + 1], h.end) && BlockOk(bs[i + 2], h.end);
    JoinedEnd(Mark(bs, i)[i], bs[i + 1]);
    WellFormedExtents(h);
    assert PayloadEnd(bs[i + 1]) <= bs[i + 2].addr;
    GuardOffPayloads(bs, i, i, i + 1, PayloadEnd(Joined(Mark(bs, i)[i], bs[i + 1])));
  }

  /** The list between the two merges, around block i. */
  ghost predicate Between(h: Heap, i: nat, n: seq<Block>, hi: nat) {
    && i <= hi < |h.blocks| && hi <= i + 1 && (hi == i + 1 ==> h.blocks[hi].free)
    && |n| == |h.blocks| - (hi - i)
    && n[i].addr == h.blocks[i].addr && n[i].free && n[i].size % 8 == 0 && 8 <= n[i].size < 0x100_0000
    && (0 < i ==> n[i - 1] == h.blocks[i - 1])
    && (if hi + 1 < |h.blocks| then n[i + 1].addr == h.blocks[hi + 1].addr && PayloadEnd(n[i]) <= n[i + 1].addr + 4
        else PayloadEnd(n[i]) <= h.end)
  }

  lemma AfterForward(h: Heap, i: nat)
    requires WellFormed(h) && Tidy(h.blocks) && i < |h.blocks|
    ensures var m := Mark(h.blocks, i);
      Between(h, i, MergeNext(m, i), if i + 1 < |h.blocks| && h.blocks[i + 1].free then i + 1 else i)
  {
    var bs, m := h.blocks, Mark(h.blocks, i);
    assert BlockOk(bs[i], h.end);
    if i + 1 < |bs| {
      if bs[i + 1].free {
        ForwardGuard(h, i);
        MergeShape(m, i);
      }
    }
  }

  /** The merge into the previous block: its guard word stays near too. */
  lemma BackwardGuard(h: Heap, i: nat, n: seq<Block>, hi: nat)
    requires WellFormed(h) && Between(h, i, n, hi) && 0 < i && h.blocks[i - 1].free
    ensures Near(n, i - 1)
    ensures var y := PayloadEnd(Joined(n[i - 1], n[i])); OffPayloads(h.blocks, i, y)
  {
    var bs := h.blocks;
    assert BlockOk(bs[i - 1], h.end) && BlockOk(bs[i], h.end) && PayloadEnd(bs[i - 1]) <= bs[i].addr;
    assert hi + 1 < |bs| ==> BlockOk(bs[hi + 1], h.end);
    JoinedEnd(n[i - 1], n[i]);
    WellFormedExtents(h);
    GuardOffPayloads(bs, i, i - 1, hi, PayloadEnd(Joined(n[i - 1], n[i])));
  }

  /** A header, listed or stale, that kfree will refuse as a double free. */
  ghost predicate Refusable(m: seq<Word>, block: int) {
    && 0 <= block && block + HEADER <= |m| && block % 4 == 0
    && m[block + FREE_AT] != 0
    && (block + HEADER + m[block + SIZE_AT]) % 4 == 0 && block + HEADER + m[block + SIZE_AT] < RAM
  }

  lemma RefusableIsRefused(m: seq<Word>, end: int, ptr: int)
    requires |m| == RAM && end < HEAP_END && HEADER <= ptr < TWO32
    requires ptr - HEADER < end ==> Refusable(m, ptr - HEADER)
    ensures Readable(m, end, ptr) && Check(m, end, ptr) != Freed
  {
  }

  lemma AlignedEnd(b: Block)
    requires b.addr % 4 == 0 && b.size % 8 == 0
    ensures PayloadEnd(b) % 4 == 0
  {
    AlignedSum(b.addr + HEADER, b.size);
  }

  lemma FreeBlockIsRefusable(m: seq<Word>, b: Block, prev: int, next: int)
    requires BlockAt(m, b, prev, next) && b.free && b.addr % 4 == 0 && b.size % 8 == 0 && PayloadEnd(b) < RAM
    ensures Refusable(m, b.addr)
  {
    AlignedEnd(b);
  }

  lemma BetweenIsBounded(h: Heap, i: nat, n: seq<Block>, hi: nat)
    requires WellFormed(h) && Between(h, i, n, hi)
    ensures n[i].addr % 4 == 0 && PayloadEnd(n[i]) < RAM
  {
    assert BlockOk(h.blocks[i], h.end);
    assert hi + 1 < |h.blocks| ==> BlockOk(h.blocks[hi + 1], h.end);
  }

  lemma RefusableAfterForward(m: seq<Word>, h: Heap, i: nat, n: seq<Block>, hi: nat)
    requires WellFormed(h) && Between(h, i, n, hi) && Headers(m, n) && |m| == RAM
    ensures Refusable(m, h.blocks[i].addr)
  {
    BetweenIsBounded(h, i, n, hi);
    assert HeaderAt(m, n, i);
    FreeBlockIsRefusable(m, n[i], AddrOf(n, i - 1), AddrOf(n, i + 1));
  }

  /** A header whose magic word stands but whose size word is a guard word. */
  ghost predicate Spoiled(m: seq<Word>, block: int) {
    0 <= block && block + HEADER <= |m| && m[block] == MAGIC && m[block + SIZE_AT] == MAGIC
  }

  /** The guard word that kfree looks for behind a spoiled header lies far outside
      the heap. */
  lemma SpoiledIsUnreadable(m: seq<Word>, end: int, ptr: int)
    requires |m| == RAM && end < HEAP_END && HEAP_START <= ptr - HEADER < end && Spoiled(m, ptr - HEADER)
    ensures !Readable(m, end, ptr) && TailOf(m, ptr - HEADER) >= HEAP_END
  {
    assert BlockOf(ptr) == ptr - HEADER;
    assert TailOf(m, ptr - HEADER) == ptr + MAGIC;
  }

  /** The backward merge leaves the absorbed header refusable, unless its guard
      word falls on that header's size. */
  lemma HeaderAfterBackward(m0: seq<Word>, m1: seq<Word>, h: Heap, i: nat, n: seq<Block>, hi: nat)
    requires WellFormed(h) && Between(h, i, n, hi) && 0 < i && h.blocks[i - 1].free
    requires Refusable(m0, n[i].addr) && m0[n[i].addr] == MAGIC
    requires var c := Joined(n[i - 1], n[i]);
      MergeStores(m0, m1, c.addr, c.size, AddrOf(n, i + 1), PayloadEnd(c))
    ensures if GuardHitsSize(n, i) then Spoiled(m1, n[i].addr) else Refusable(m1, n[i].addr)
  {
    BackwardGuard(h, i, n, hi);
    assert BlockOk(h.blocks[i - 1], h.end) && BlockOk(h.blocks[i], h.end) && PayloadEnd(h.blocks[i - 1]) <= h.blocks[i].addr;
    assert i + 1 < |n| ==> hi + 1 < |h.blocks|;
    StoresBesideHeader(m0, m1, Joined(n[i - 1], n[i]), AddrOf(n, i + 1), PayloadEnd(Joined(n[i - 1], n[i])), n[i].addr);
  }

  lemma StoresBesideHeader(m0: seq<Word>, m1: seq<Word>, c: Block, next: int, y: int, block: int)
    requires MergeStores(m0, m1, c.addr, c.size, next, y) && c.addr + HEADER <= block && y % 4 == 0
    requires next == 0 || block + HEADER <= next + PREV_AT
    requires Refusable(m0, block) && m0[block] == MAGIC
    ensures if y == block + SIZE_AT then Spoiled(m1, block) else Refusable(m1, block)
  {
  }

  lemma ForwardKeepsPayloads(m0: seq<Word>, m1: seq<Word>, h: Heap, i: nat)
    requires WellFormed(h) && Tidy(h.blocks) && i + 1 < |h.blocks| && h.blocks[i + 1].free
    requires var m := Mark(h.blocks, i); var c := Joined(m[i], m[i + 1]);
      MergeStores(m0, m1, m[i].addr, c.size, AddrOf(m, i + 2), PayloadEnd(c))
    ensures KeepsPayloads(m0, m1, h.blocks, i)
  {
    var bs, m := h.blocks, Mark(h.blocks, i);
    var c := Joined(m[i], m[i + 1]);
    ForwardGuard(h, i);
    WellFormedExtents(h);
    HeaderOffPayloads(bs, i, i, bs[i].addr + SIZE_AT);
    HeaderOffPayloads(bs, i, i, bs[i].addr + NEXT_AT);
    HeaderOffPayloads(bs, i, i + 2, bs[i + 2].addr + PREV_AT);
    MergeKeepsPayloads(m0, m1, bs, i, bs[i].addr, c.size, bs[i + 2].addr, PayloadEnd(c));
  }

  lemma BackwardKeepsPayloads(m0: seq<Word>, m1: seq<Word>, h: Heap, i: nat, n: seq<Block>, hi: nat)
    requires WellFormed(h) && Between(h, i, n, hi) && 0 < i && h.blocks[i - 1].free
    requires var c := Joined(n[i - 1], n[i]);
      MergeStores(m0, m1, c.addr, c.size, AddrOf(n, i + 1), PayloadEnd(c))
    ensures KeepsPayloads(m0, m1, h.blocks, i)
  {
    var bs := h.blocks;
    var c := Joined(n[i - 1], n[i]);
    BackwardGuard(h, i, n, hi);
    WellFormedExtents(h);
    HeaderOffPayloads(bs, i, i - 1, bs[i - 1].addr + SIZE_AT);
    HeaderOffPayloads(bs, i, i - 1, bs[i - 1].addr + NEXT_AT);
    if hi + 1 < |bs| { HeaderOffPayloads(bs, i, hi + 1, bs[hi + 1].addr + PREV_AT); }
    MergeKeepsPayloads(m0, m1, bs, i, c.addr, c.size, AddrOf(n, i + 1), PayloadEnd(c));
  }

  /** What kfree reads of the next block before the first merge. */
  lemma NextBlockReads(mem: seq<Word>, h: Heap, i: nat)
    requires WellFormed(h) && i < |h.blocks| && Headers(mem, Mark(h.blocks, i)) && |mem| == RAM
    ensures var b, next := h.blocks[i].addr, AddrOf(h.blocks, i + 1);
      && HEAP_START <= b && b + HEADER <= RAM && mem[b + NEXT_AT] == next
      && (i + 1 < |h.blocks| ==> HEAP_START <= next < h.end && (mem[next + FREE_AT] != 0 <==> h.blocks[i + 1].free))
  {
    var bs, m := h.blocks, Mark(h.blocks, i);
    assert HeaderAt(mem, m, i) && BlockOk(bs[i], h.end);
    if i + 1 < |bs| { assert HeaderAt(mem, m, i + 1) && BlockOk(bs[i + 1], h.end); }
  }

  lemma ForwardStaysLaid(h: Heap, i: nat)
    requires Laid(h.blocks, h.end) && i < |h.blocks|
    ensures Laid(MergeNext(Mark(h.blocks, i), i), h.end)
  {
    MarkKeepsLaid(h.blocks, h.end, i);
    var m := Mark(h.blocks, i);
    if i + 1 < |m| && m[i + 1].free { MergeKeepsLaid(m, h.end, i); }
  }

  /** Clearing a link word of a listed block touches no payload, and no size or
      flag word of any header. */
  lemma UnlinkHarmless(m: seq<Word>, bs: seq<Block>, i: nat, a: int)
    requires Extents(bs) && i < |bs| && a in Addrs(bs) && |m| == RAM && 0 <= a && a + NEXT_AT < RAM
    ensures KeepsPayloads(m, m[a + NEXT_AT := 0], bs, i)
    ensures Refusable(m, bs[i].addr) ==> Refusable(m[a + NEXT_AT := 0], bs[i].addr)
    ensures Spoiled(m, bs[i].addr) ==> Spoiled(m[a + NEXT_AT := 0], bs[i].addr)
  {
    var k :| 0 <= k < |bs| && bs[k].addr == a;
    HeaderStoreKeepsPayloads(m, bs, k, a + NEXT_AT, 0);
  }

  /** In the intended layout no release goes astray or spoils a header. */
  lemma IntendedNeverAstray(h: Heap, ptr: int)
    requires Laid(h.blocks, h.end)
    ensures !GoesAstray(h, ptr) && !SpoilsHeader(h, ptr)
  {
    var i := LiveIndex(h.blocks, ptr);
    if i < |h.blocks| {
      ForwardStaysLaid(h, i);
      var n := MergeNext(Mark(h.blocks, i), i);
      if 0 < i {
        MergeIsExact(n, h.end, i - 1);
        SameAddress(h, i);
        assert BlockOk(n[i], h.end);
      }
    }
  }

  lemma ListedBelowTop(h: Heap, a: int)
    requires WellFormed(h) && a in Addrs(h.blocks)
    ensures HEAP_START <= a < h.end
  {
    var k :| 0 <= k < |h.blocks| && h.blocks[k].addr == a;
    assert BlockOk(h.blocks[k], h.end);
  }

  lemma TrimTopIs(l: Layout, r: seq<Block>, end: int)
    requires r != []
    ensures var t := Trim(l, r, end).end; t == end || t == HEAP_START || t in Addrs(r)
  {
    assert r[|r| - 1].addr in Addrs(r);
  }

  /** A release never raises the top. */
  lemma ReleaseLowersTop(l: Layout, h: Heap, i: nat)
    requires WellFormed(h) && i < |h.blocks| && Coalesce(h.blocks, i) != []
    ensures HEAP_START <= Trim(l, Coalesce(h.blocks, i), h.end).end <= h.end
  {
    var r := Coalesce(h.blocks, i);
    CoalesceAddrs(h.blocks, i);
    TrimTopIs(l, r, h.end);
    var t := Trim(l, r, h.end).end;
    if t in Addrs(r) { ListedBelowTop(h, t); }
  }

  lemma SameAddress(h: Heap, i: nat)
    requires i < |h.blocks|
    ensures MergeNext(Mark(h.blocks, i), i)[i].addr == h.blocks[i].addr
  {
  }

  /** What going astray means: once the backward merge has stored the new size and
      its guard word, the link of the freed block that the code reads next is the
      guard pattern, an address far outside memory. */
  lemma StrayLinkIsGuard(m0: seq<Word>, m1: seq<Word>, n: seq<Block>, i: nat)
    requires |m0| == RAM && i < |n| && GuardHitsLinks(n, i) && 0 <= n[i - 1].addr && n[i - 1].addr + HEADER <= n[i].addr
    requires n[i].addr + HEADER <= RAM
    requires var c := Joined(n[i - 1], n[i]); m1 == m0[c.addr + SIZE_AT := c.size][PayloadEnd(c) := MAGIC]
    ensures MAGIC > RAM && (m1[n[i].addr + NEXT_AT] == MAGIC || m1[n[i].addr + PREV_AT] == MAGIC)
  {
  }
}

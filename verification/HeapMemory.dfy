/** How a block list is laid out in memory, as laws about word sequences.

    Memory is indexed by byte address; words live at multiples of four, and the
    allocator's stores are proved to go to those only. */
module HeapMemory {
  import opened Words
  import opened HeapSpec

  /** Modelled memory, in bytes: the heap range and some room above it. */
  const RAM := 0x100_0000

  const SIZE_AT := 4
  const FREE_AT := 8
  const NEXT_AT := 12
  const PREV_AT := 16

  function AddrOf(bs: seq<Block>, i: int): int {
    if 0 <= i < |bs| then bs[i].addr else 0
  }

  /** The five header words of block b. */
  ghost predicate BlockAt(m: seq<Word>, b: Block, prev: int, next: int) {
    && 0 <= b.addr && b.addr + HEADER <= |m|
    && m[b.addr] == MAGIC
    && m[b.addr + SIZE_AT] == b.size
    && (m[b.addr + FREE_AT] != 0 <==> b.free)
    && m[b.addr + NEXT_AT] == next
    && m[b.addr + PREV_AT] == prev
  }

  ghost predicate HeaderAt(m: seq<Word>, bs: seq<Block>, i: nat)
    requires i < |bs|
  {
    BlockAt(m, bs[i], AddrOf(bs, i - 1), AddrOf(bs, i + 1))
  }

  /** Every block's header is in place, linked both ways. */
  ghost predicate Headers(m: seq<Word>, bs: seq<Block>) {
    forall i :: 0 <= i < |bs| ==> HeaderAt(m, bs, i)
  }

  ghost predicate Roomy(bs: seq<Block>, i: nat)
    requires i < |bs|
  {
    0 <= PayloadEnd(bs[i]) < RAM && (i + 1 < |bs| ==> PayloadEnd(bs[i]) <= bs[i + 1].addr)
  }

  ghost predicate GuardAt(m: seq<Word>, bs: seq<Block>, i: nat)
    requires i < |bs| && |m| == RAM
  {
    Roomy(bs, i) ==> m[PayloadEnd(bs[i])] == MAGIC
  }

  /** Every block with room for its guard word has it in place. */
  ghost predicate Guards(m: seq<Word>, bs: seq<Block>) {
    |m| == RAM && forall i :: 0 <= i < |bs| ==> GuardAt(m, bs, i)
  }

  /** Headers do not overlap, in address order. */
  ghost predicate Apart(bs: seq<Block>) {
    && (forall i :: 0 <= i < |bs| ==> HEAP_START <= bs[i].addr)
    && (forall i, j :: 0 <= i < j < |bs| ==> bs[i].addr + HEADER <= bs[j].addr)
  }

  /** Payload words of live blocks other than block i keep their values. */
  ghost predicate KeepsPayloads(m0: seq<Word>, m1: seq<Word>, bs: seq<Block>, i: int) {
    |m0| == |m1| == RAM &&
    forall j, a :: 0 <= j < |bs| && j != i && !bs[j].free && bs[j].addr + HEADER <= a < PayloadEnd(bs[j]) && 0 <= a < RAM
      ==> m1[a] == m0[a]
  }

  lemma HeadIsNotNull(h: Heap)
    requires WellFormed(h)
    ensures AddrOf(h.blocks, 0) == 0 <==> h.blocks == []
  {
    assert h.blocks != [] ==> BlockOk(h.blocks[0], h.end);
  }

  lemma SoundIsApart(h: Heap)
    requires WellFormed(h)
    ensures Apart(h.blocks)
  {
    forall i, j | 0 <= i < j < |h.blocks| ensures h.blocks[i].addr + HEADER <= h.blocks[j].addr {
      assert BlockOk(h.blocks[i], h.end);
    }
  }

  // ----- one block merged into the one before it

  /** The stores that absorb the block behind `at`: new size, new successor,
      guard word at y, and the back link of the new successor. */
  ghost predicate MergeStores(m0: seq<Word>, m1: seq<Word>, at: int, size: int, next: int, y: int) {
    && |m0| == |m1| == RAM && HEAP_START <= at && at + HEADER <= y < RAM
    && (next == 0 || (at + HEADER <= next && next + HEADER <= RAM))
    && m1[at + SIZE_AT] == size && m1[at + NEXT_AT] == next && m1[y] == MAGIC
    && (next != 0 ==> m1[next + PREV_AT] == at)
    && forall a :: 0 <= a < RAM && a != at + SIZE_AT && a != at + NEXT_AT && a != y && a != next + PREV_AT
         ==> m1[a] == m0[a]
  }

  lemma MergeWritten(m0: seq<Word>, m2: seq<Word>, at: Word, size: Word, next: Word, y: int)
    requires |m0| == RAM && HEAP_START <= at && at + HEADER <= y < RAM
    requires next == 0 || (at + HEADER <= next && next + HEADER <= RAM && y != next + PREV_AT)
    requires var m1 := m0[at + SIZE_AT := size][at + NEXT_AT := next][y := MAGIC];
      m2 == if next != 0 then m1[next + PREV_AT := at] else m1
    ensures MergeStores(m0, m2, at, size, next, y)
  {
  }

  lemma MergedHeader(m0: seq<Word>, m1: seq<Word>, b: Block, prev: int, next0: int, size: int, next: int, y: int)
    requires BlockAt(m0, b, prev, next0) && MergeStores(m0, m1, b.addr, size, next, y)
    ensures BlockAt(m1, b.(size := size), prev, next)
  {
  }

  lemma StampedHeader(m0: seq<Word>, m1: seq<Word>, at: int, size: int, b: Block, prev: int, next: int, y: int)
    requires BlockAt(m0, b, prev, next) && MergeStores(m0, m1, at, size, b.addr, y) && b.addr != 0
    requires y <= b.addr + 8 && y % 4 == 0 && b.addr % 4 == 0
    ensures BlockAt(m1, Stamp(b, y), at, next)
  {
  }

  lemma OtherHeader(m0: seq<Word>, m1: seq<Word>, at: int, size: int, next: int, y: int, b: Block, prev: int, succ: int)
    requires BlockAt(m0, b, prev, succ) && MergeStores(m0, m1, at, size, next, y)
    requires b.addr + HEADER <= at || (at + HEADER <= b.addr && y < b.addr && next + HEADER <= b.addr)
    requires HEAP_START <= b.addr
    ensures BlockAt(m1, b, prev, succ)
  {
  }

  /** r is bs with block i+1 absorbed into block i, guard word at y. */
  ghost predicate IsMerged(bs: seq<Block>, i: nat, r: seq<Block>, c: Block, y: int) {
    && i + 1 < |bs| && |r| == |bs| - 1 && r[i] == c && c.addr == bs[i].addr && c.free == bs[i].free
    && y == PayloadEnd(c)
    && (forall j :: 0 <= j < i ==> r[j] == bs[j])
    && (i + 2 < |bs| ==> r[i + 1] == Stamp(bs[i + 2], y))
    && (forall j :: i + 1 < j < |r| ==> r[j] == bs[j + 1])
  }

  lemma MergeShape(bs: seq<Block>, i: nat)
    requires i + 1 < |bs|
    ensures var c := Joined(bs[i], bs[i + 1]); IsMerged(bs, i, Merge(bs, i), c, PayloadEnd(c))
  {
    var tail := bs[i + 2..];
    assert tail != [] ==> tail[0] == bs[i + 2];
  }

  ghost predicate MergesInto(m0: seq<Word>, m1: seq<Word>, bs: seq<Block>, i: nat, c: Block, y: int) {
    && MergeStores(m0, m1, c.addr, c.size, AddrOf(bs, i + 2), y)
    && y % 4 == 0 && (i + 2 < |bs| ==> y <= bs[i + 2].addr + 8 && bs[i + 2].addr % 4 == 0)
  }

  /** A merge of blocks i and i+1 whose guard word falls at most two words into
      the header behind it. */
  ghost predicate Near(bs: seq<Block>, i: nat)
    requires i + 1 < |bs|
  {
    var y := PayloadEnd(Joined(bs[i], bs[i + 1]));
    && bs[i].addr % 4 == 0 && bs[i].addr + HEADER <= y < RAM && y % 4 == 0
    && (i + 2 < |bs| ==> y <= bs[i + 2].addr + 8 && bs[i + 2].addr % 4 == 0 && bs[i + 2].addr + HEADER <= RAM)
  }

  ghost predicate Sizes(bs: seq<Block>) {
    forall i :: 0 <= i < |bs| ==> 0 <= bs[i].size
  }

  lemma MergeOneHeader(m0: seq<Word>, m1: seq<Word>, bs: seq<Block>, i: nat, r: seq<Block>, c: Block, y: int, j: nat)
    requires Headers(m0, bs) && Apart(bs) && IsMerged(bs, i, r, c, y) && MergesInto(m0, m1, bs, i, c, y)
    requires j < |r|
    ensures HeaderAt(m1, r, j)
  {
    var next := AddrOf(bs, i + 2);
    var k := if j <= i then j else j + 1;
    var prev, succ := AddrOf(bs, k - 1), AddrOf(bs, k + 1);
    assert HeaderAt(m0, bs, k);
    if j == i {
      MergedHeader(m0, m1, bs[i], prev, succ, c.size, next, y);
    } else if j == i + 1 {
      StampedHeader(m0, m1, c.addr, c.size, bs[k], prev, succ, y);
    } else {
      OtherHeader(m0, m1, c.addr, c.size, next, y, bs[k], prev, succ);
    }
  }

  lemma MergeOneGuard(m0: seq<Word>, m1: seq<Word>, bs: seq<Block>, i: nat, r: seq<Block>, c: Block, y: int, j: nat)
    requires Guards(m0, bs) && Apart(bs) && IsMerged(bs, i, r, c, y) && MergesInto(m0, m1, bs, i, c, y)
    requires j < |r| && forall k :: 0 <= k < |bs| ==> 0 <= bs[k].size
    ensures GuardAt(m1, r, j)
  {
    if j != i && Roomy(r, j) {
      var k := if j < i then j else j + 1;
      assert r[j].size == bs[k].size;
      assert GuardAt(m0, bs, k);
    }
  }

  /** The stores of a merge produce the merged list, including whatever its
      guard word does to the header behind. */
  lemma MergeInMemory(m0: seq<Word>, m1: seq<Word>, bs: seq<Block>, i: nat)
    requires Headers(m0, bs) && Guards(m0, bs) && Apart(bs) && i + 1 < |bs|
    requires Sizes(bs) && Near(bs, i)
    requires var c := Joined(bs[i], bs[i + 1]); MergeStores(m0, m1, c.addr, c.size, AddrOf(bs, i + 2), PayloadEnd(c))
    ensures var r := Merge(bs, i); Headers(m1, r) && Guards(m1, r) && Apart(r) && Sizes(r) && AddrOf(r, 0) == AddrOf(bs, 0)
  {
    var c, r := Joined(bs[i], bs[i + 1]), Merge(bs, i);
    var y := PayloadEnd(c);
    MergeShape(bs, i);
    forall j | 0 <= j < |r| ensures HeaderAt(m1, r, j) && GuardAt(m1, r, j) {
      MergeOneHeader(m0, m1, bs, i, r, c, y, j);
      MergeOneGuard(m0, m1, bs, i, r, c, y, j);
    }
    MergeApart(bs, i, r, c, y);
  }

  lemma MergeApart(bs: seq<Block>, i: nat, r: seq<Block>, c: Block, y: int)
    requires Apart(bs) && IsMerged(bs, i, r, c, y)
    ensures Apart(r)
  {
    forall j, k | 0 <= j < k < |r| ensures r[j].addr + HEADER <= r[k].addr {
      var j', k' := if j <= i then j else j + 1, if k <= i then k else k + 1;
      assert r[j].addr == bs[j'].addr && r[k].addr == bs[k'].addr;
    }
  }

  // ----- writing a whole block

  /** Memory after a header and the guard word behind its payload are written. */
  ghost function BlockWritten(m: seq<Word>, addr: int, size: Word, flag: Word, next: Word, prev: Word): (r: seq<Word>)
    requires |m| == RAM && 0 <= addr && addr + HEADER + size < RAM
    ensures |r| == |m| && BlockAt(r, Block(addr, size, flag != 0), prev, next) && r[addr + HEADER + size] == MAGIC
    ensures forall a :: 0 <= a < RAM && !(addr <= a < addr + HEADER) && a != addr + HEADER + size ==> r[a] == m[a]
  {
    m[addr := MAGIC][addr + SIZE_AT := size][addr + FREE_AT := flag][addr + NEXT_AT := next][addr + PREV_AT := prev]
     [addr + HEADER + size := MAGIC]
  }

  // ----- the other changes of the list

  /** Block i's flag word is overwritten. */
  lemma FlagInMemory(m0: seq<Word>, m1: seq<Word>, bs: seq<Block>, i: nat, w: Word)
    requires Headers(m0, bs) && Guards(m0, bs) && Apart(bs) && i < |bs|
    requires forall j :: 0 <= j < |bs| ==> 0 <= bs[j].size
    requires bs[i].addr + FREE_AT < |m0| && m1 == m0[bs[i].addr + FREE_AT := w]
    ensures var r := bs[i := bs[i].(free := w != 0)]; Headers(m1, r) && Guards(m1, r) && Apart(r)
  {
    var r := bs[i := bs[i].(free := w != 0)];
    assert forall j :: 0 <= j < |r| ==> r[j].addr == bs[j].addr && r[j].size == bs[j].size;
    forall j | 0 <= j < |r| ensures HeaderAt(m1, r, j) && GuardAt(m1, r, j) {
      assert HeaderAt(m0, bs, j) && GuardAt(m0, bs, j);
    }
  }

  /** The last block is unlinked. */
  lemma UnlinkInMemory(m0: seq<Word>, m1: seq<Word>, bs: seq<Block>)
    requires Headers(m0, bs) && Guards(m0, bs) && Apart(bs) && 2 <= |bs|
    requires Extents(bs)
    requires bs[|bs| - 2].addr + NEXT_AT < |m0| && m1 == m0[bs[|bs| - 2].addr + NEXT_AT := 0]
    ensures var r := bs[..|bs| - 1]; Headers(m1, r) && Guards(m1, r) && Apart(r)
  {
    var r := bs[..|bs| - 1];
    forall j | 0 <= j < |r| ensures HeaderAt(m1, r, j) && GuardAt(m1, r, j) {
      assert HeaderAt(m0, bs, j) && GuardAt(m0, bs, j) && Roomy(bs, j);
    }
  }

  ghost predicate AppendStores(m0: seq<Word>, m1: seq<Word>, last: int, b: Block) {
    && |m0| == |m1| == RAM && PayloadEnd(b) < RAM
    && BlockAt(m1, b, last, 0) && m1[PayloadEnd(b)] == MAGIC
    && (last != 0 ==> 0 <= last && last + HEADER <= b.addr && m1[last + NEXT_AT] == b.addr)
    && forall a :: 0 <= a < RAM && !(b.addr <= a <= PayloadEnd(b)) && (last == 0 || a != last + NEXT_AT) ==> m1[a] == m0[a]
  }

  lemma AppendOneInMemory(m0: seq<Word>, m1: seq<Word>, bs: seq<Block>, r: seq<Block>, b: Block, j: nat)
    requires Headers(m0, bs) && Guards(m0, bs) && Apart(bs) && AppendStores(m0, m1, AddrOf(bs, |bs| - 1), b)
    requires HEAP_START <= b.addr && 0 <= b.size
    requires forall k :: 0 <= k < |bs| ==> 0 <= bs[k].size && PayloadEnd(bs[k]) <= b.addr
    requires |r| == |bs| + 1 && r[|bs|] == b && forall k :: 0 <= k < |bs| ==> r[k] == bs[k]
    requires j < |r|
    ensures HeaderAt(m1, r, j) && GuardAt(m1, r, j)
  {
    if j < |bs| { assert HeaderAt(m0, bs, j) && GuardAt(m0, bs, j); }
  }

  /** A new block is written on top of the list. */
  lemma AppendInMemory(m0: seq<Word>, m1: seq<Word>, h: Heap, b: Block)
    requires Headers(m0, h.blocks) && Guards(m0, h.blocks) && WellFormed(h)
    requires AppendStores(m0, m1, AddrOf(h.blocks, |h.blocks| - 1), b) && b.addr == h.end && 0 <= b.size
    ensures var r := h.blocks + [b]; Headers(m1, r) && Guards(m1, r)
    ensures KeepsPayloads(m0, m1, h.blocks, -1)
  {
    var bs, r := h.blocks, h.blocks + [b];
    SoundIsApart(h);
    assert forall k :: 0 <= k < |bs| ==> BlockOk(bs[k], h.end);
    forall j | 0 <= j < |r| ensures HeaderAt(m1, r, j) && GuardAt(m1, r, j) {
      AppendOneInMemory(m0, m1, bs, r, b, j);
    }
  }

  /** The stores that cut block b in two, with successor `next`. */
  ghost predicate SplitStores(m0: seq<Word>, m1: seq<Word>, b: Block, left: Block, right: Block, prev: int, next: int) {
    && |m0| == |m1| == RAM && HEAP_START <= b.addr == left.addr
    && PayloadEnd(left) <= right.addr && PayloadEnd(right) <= PayloadEnd(b) < RAM && 0 <= left.size && 0 <= right.size
    && BlockAt(m1, left, prev, right.addr) && BlockAt(m1, right, left.addr, next)
    && m1[PayloadEnd(left)] == MAGIC && m1[PayloadEnd(right)] == MAGIC
    && (next != 0 ==> PayloadEnd(b) <= next && next + HEADER <= RAM && m1[next + PREV_AT] == right.addr)
    && forall a :: 0 <= a < RAM && !(b.addr <= a < PayloadEnd(b)) && (next == 0 || a != next + PREV_AT) ==> m1[a] == m0[a]
  }

  /** Block b can be cut into left and right. */
  ghost predicate SplitFits(m0: seq<Word>, b: Block, left: Block, right: Block, prev: int, next: Word) {
    && BlockAt(m0, b, prev, next) && b.free && |m0| == RAM && PayloadEnd(b) < RAM && m0[PayloadEnd(b)] == MAGIC
    && HEAP_START <= b.addr == left.addr && left.free && 0 <= left.size < TWO32 && right.free && 0 <= right.size < TWO32
    && PayloadEnd(left) <= right.addr < TWO32 && PayloadEnd(right) <= PayloadEnd(b)
    && (next == 0 || (PayloadEnd(b) <= next && next + HEADER <= RAM))
  }

  /** m1 is m0 with block b written: header, guard word, nothing else. */
  ghost predicate IsWritten(m0: seq<Word>, m1: seq<Word>, b: Block, prev: int, next: int) {
    && |m0| == |m1| == RAM && 0 <= b.addr && 0 <= b.size && PayloadEnd(b) < RAM
    && BlockAt(m1, b, prev, next) && m1[PayloadEnd(b)] == MAGIC
    && forall a :: 0 <= a < RAM && !(b.addr <= a < b.addr + HEADER) && a != PayloadEnd(b) ==> m1[a] == m0[a]
  }

  /** The stores of a split that follow the writing of the right part: the back
      link behind it, then the left part. */
  lemma SplitFinished(m0: seq<Word>, m1: seq<Word>, m2: seq<Word>, b: Block, left: Block, right: Block, prev: int, next: Word)
    requires SplitFits(m0, b, left, right, prev, next) && IsWritten(m0, m1, right, left.addr, next)
    requires m2 == (if next != 0 then m1[next + PREV_AT := right.addr] else m1)
                   [b.addr + SIZE_AT := left.size][b.addr + NEXT_AT := right.addr][PayloadEnd(left) := MAGIC]
    ensures SplitStores(m0, m2, b, left, right, prev, next)
  {
  }

  lemma BlockIsWritten(m: seq<Word>, addr: int, size: Word, flag: Word, next: Word, prev: Word)
    requires |m| == RAM && 0 <= addr && addr + HEADER + size < RAM
    ensures IsWritten(m, BlockWritten(m, addr, size, flag, next, prev), Block(addr, size, flag != 0), prev, next)
  {
  }

  ghost predicate IsSplit(bs: seq<Block>, i: nat, r: seq<Block>, left: Block, right: Block) {
    && i < |bs| && |r| == |bs| + 1 && r[i] == left && r[i + 1] == right
    && (forall j :: 0 <= j < i ==> r[j] == bs[j])
    && (forall j :: i + 1 < j < |r| ==> r[j] == bs[j - 1])
  }

  /** Extents of a list, without the arithmetic of alignment. */
  ghost predicate Extents(bs: seq<Block>) {
    && Apart(bs)
    && (forall i :: 0 <= i < |bs| ==> 0 <= bs[i].size && PayloadEnd(bs[i]) < RAM)
    && (forall i, j :: 0 <= i < j < |bs| ==> PayloadEnd(bs[i]) <= bs[j].addr)
  }

  lemma WellFormedExtents(h: Heap)
    requires WellFormed(h)
    ensures Extents(h.blocks)
  {
    SoundIsApart(h);
    assert forall i :: 0 <= i < |h.blocks| ==> BlockOk(h.blocks[i], h.end);
  }

  /** A header outside a split block, with or without a new back link. */
  lemma HeaderBesideSplit(m0: seq<Word>, m1: seq<Word>, b: Block, left: Block, right: Block, prev: int, next: int,
                          c: Block, cPrev: int, cNext: int)
    requires SplitStores(m0, m1, b, left, right, prev, next) && BlockAt(m0, c, cPrev, cNext)
    requires c.addr + HEADER <= b.addr || PayloadEnd(b) <= c.addr
    requires next == 0 || c.addr == next || c.addr + HEADER <= next || next + HEADER <= c.addr
    ensures BlockAt(m1, c, if next != 0 && c.addr == next then right.addr else cPrev, cNext)
  {
  }

  lemma SplitPartHeader(m0: seq<Word>, m1: seq<Word>, bs: seq<Block>, i: nat, r: seq<Block>, left: Block, right: Block, j: nat)
    requires IsSplit(bs, i, r, left, right) && i <= j <= i + 1
    requires SplitStores(m0, m1, bs[i], left, right, AddrOf(bs, i - 1), AddrOf(bs, i + 1))
    ensures HeaderAt(m1, r, j)
  {
  }

  lemma SplitOtherHeader(m0: seq<Word>, m1: seq<Word>, bs: seq<Block>, i: nat, r: seq<Block>, left: Block, right: Block, k: nat)
    requires Headers(m0, bs) && Extents(bs) && IsSplit(bs, i, r, left, right) && k < |bs| && k != i
    requires SplitStores(m0, m1, bs[i], left, right, AddrOf(bs, i - 1), AddrOf(bs, i + 1))
    ensures HeaderAt(m1, r, if k < i then k else k + 1)
  {
    assert HeaderAt(m0, bs, k);
    HeaderBesideSplit(m0, m1, bs[i], left, right, AddrOf(bs, i - 1), AddrOf(bs, i + 1),
                      bs[k], AddrOf(bs, k - 1), AddrOf(bs, k + 1));
  }

  lemma SplitOneHeader(m0: seq<Word>, m1: seq<Word>, bs: seq<Block>, i: nat, r: seq<Block>, left: Block, right: Block, j: nat)
    requires Headers(m0, bs) && Extents(bs) && IsSplit(bs, i, r, left, right)
    requires SplitStores(m0, m1, bs[i], left, right, AddrOf(bs, i - 1), AddrOf(bs, i + 1))
    requires j < |r|
    ensures HeaderAt(m1, r, j)
  {
    if i <= j <= i + 1 { SplitPartHeader(m0, m1, bs, i, r, left, right, j); }
    else { SplitOtherHeader(m0, m1, bs, i, r, left, right, if j < i then j else j - 1); }
  }

  lemma SplitOneGuard(m0: seq<Word>, m1: seq<Word>, bs: seq<Block>, i: nat, r: seq<Block>, left: Block, right: Block, j: nat)
    requires Guards(m0, bs) && Extents(bs) && IsSplit(bs, i, r, left, right)
    requires SplitStores(m0, m1, bs[i], left, right, AddrOf(bs, i - 1), AddrOf(bs, i + 1))
    requires j < |r|
    ensures GuardAt(m1, r, j)
  {
    if j != i && j != i + 1 {
      var k := if j < i then j else j - 1;
      assert GuardAt(m0, bs, k);
    }
  }

  lemma SplitKeepsPayloads(m0: seq<Word>, m1: seq<Word>, bs: seq<Block>, i: nat, left: Block, right: Block)
    requires Extents(bs) && i < |bs| && bs[i].free
    requires SplitStores(m0, m1, bs[i], left, right, AddrOf(bs, i - 1), AddrOf(bs, i + 1))
    ensures KeepsPayloads(m0, m1, bs, -1)
  {
  }

  /** A free block is split in place. */
  lemma SplitInMemory(m0: seq<Word>, m1: seq<Word>, bs: seq<Block>, i: nat, left: Block, right: Block)
    requires Headers(m0, bs) && Guards(m0, bs) && Extents(bs) && i < |bs| && bs[i].free
    requires SplitStores(m0, m1, bs[i], left, right, AddrOf(bs, i - 1), AddrOf(bs, i + 1))
    ensures var r := bs[..i] + [left, right] + bs[i + 1..]; Headers(m1, r) && Guards(m1, r)
    ensures KeepsPayloads(m0, m1, bs, -1)
  {
    var r := bs[..i] + [left, right] + bs[i + 1..];
    assert IsSplit(bs, i, r, left, right);
    forall j | 0 <= j < |r| ensures HeaderAt(m1, r, j) && GuardAt(m1, r, j) {
      SplitOneHeader(m0, m1, bs, i, r, left, right, j);
      SplitOneGuard(m0, m1, bs, i, r, left, right, j);
    }
    SplitKeepsPayloads(m0, m1, bs, i, left, right);
  }

  /** Block j of a split list lies inside the block of the old list it stems from. */
  lemma SplitStemsFrom(bs: seq<Block>, i: nat, r: seq<Block>, left: Block, right: Block, j: nat)
    requires Extents(bs) && IsSplit(bs, i, r, left, right) && j < |r|
    requires left.addr == bs[i].addr && PayloadEnd(left) <= right.addr && PayloadEnd(right) <= PayloadEnd(bs[i])
    requires 0 <= left.size && 0 <= right.size
    ensures var b := bs[if j <= i then j else j - 1];
      b.addr <= r[j].addr && PayloadEnd(r[j]) <= PayloadEnd(b) && 0 <= r[j].size
  {
  }

  lemma SplitExtents(bs: seq<Block>, i: nat, r: seq<Block>, left: Block, right: Block)
    requires Extents(bs) && IsSplit(bs, i, r, left, right)
    requires left.addr == bs[i].addr && PayloadEnd(left) <= right.addr && PayloadEnd(right) <= PayloadEnd(bs[i])
    requires 0 <= left.size && 0 <= right.size
    ensures Extents(r)
  {
    forall j | 0 <= j < |r| ensures 0 <= r[j].size && PayloadEnd(r[j]) < RAM && HEAP_START <= r[j].addr {
      SplitStemsFrom(bs, i, r, left, right, j);
    }
    forall j, k | 0 <= j < k < |r| ensures PayloadEnd(r[j]) <= r[k].addr && r[j].addr + HEADER <= r[k].addr {
      SplitStemsFrom(bs, i, r, left, right, j);
      SplitStemsFrom(bs, i, r, left, right, k);
    }
  }

  /** A store into a header word changes no payload. */
  lemma HeaderStoreKeepsPayloads(m: seq<Word>, bs: seq<Block>, i: nat, a: int, w: Word)
    requires Extents(bs) && i < |bs| && |m| == RAM && bs[i].addr <= a < bs[i].addr + HEADER
    ensures KeepsPayloads(m, m[a := w], bs, -1)
  {
  }

  /** What a kept payload means: each of its words, written out. */
  lemma KeptWord(m0: seq<Word>, m1: seq<Word>, h: Heap, i: int, j: nat, a: int)
    requires KeepsPayloads(m0, m1, h.blocks, i) && WellFormed(h)
    requires j < |h.blocks| && j != i && !h.blocks[j].free
    requires h.blocks[j].addr + 20 <= a < h.blocks[j].addr + 20 + h.blocks[j].size
    ensures 0 <= a < |m0| == |m1| && m1[a] == m0[a]
  {
    assert BlockOk(h.blocks[j], h.end);
  }

  lemma KeepsPayloadsTrans(m0: seq<Word>, m1: seq<Word>, m2: seq<Word>, bs: seq<Block>, i: int)
    requires KeepsPayloads(m0, m1, bs, i) && KeepsPayloads(m1, m2, bs, i)
    ensures KeepsPayloads(m0, m2, bs, i)
  {
  }

  // ----- the checks of kfree

  /** What kfree reports; `Freed` when every check passes. */
  datatype Verdict = NullPointer | InvalidHeader | HeaderCorrupted | TailCorrupted | HeapCorrupted | DoubleFree | Freed

  function BlockOf(ptr: int): int {
    W32(ptr - HEADER)
  }

  function TailOf(m: seq<Word>, block: int): int
    requires 0 <= block && block + HEADER <= |m|
  {
    W32(block + HEADER + m[block + SIZE_AT])
  }

  /** The words that the checks read for ptr are words of the modelled memory. */
  predicate Readable(m: seq<Word>, end: int, ptr: int) {
    var b := BlockOf(ptr);
    |m| == RAM && end < HEAP_END &&
    (ptr != 0 && HEAP_START <= b < end ==> b % 4 == 0 && (m[b] == MAGIC ==> TailOf(m, b) % 4 == 0 && TailOf(m, b) < RAM))
  }

  function Check(m: seq<Word>, end: int, ptr: int): Verdict
    requires Readable(m, end, ptr)
  {
    var b := BlockOf(ptr);
    if ptr == 0 then NullPointer
    else if b < HEAP_START || b >= end then InvalidHeader
    else if m[b] != MAGIC then HeaderCorrupted
    else if m[TailOf(m, b)] != MAGIC then TailCorrupted
    else if m[b + SIZE_AT] == 0 || TailOf(m, b) > end then HeapCorrupted
    else if m[b + FREE_AT] != 0 then DoubleFree
    else Freed
  }

  /** Each verdict on the words of memory. b is the header in front of ptr, with its
      magic word at b, its size at b + 4 and its free flag at b + 8; the guard word
      is sought behind `size` payload bytes, at the sum that 32 bits hold. */
  lemma CheckMeans(m: seq<Word>, end: int, ptr: int)
    requires Readable(m, end, ptr) && 0 <= ptr < TWO32
    ensures var v, b := Check(m, end, ptr), ptr - 20;
      var inside := 0x40_0000 <= b < end;
      && (v == NullPointer <==> ptr == 0)
      && (v == InvalidHeader <==> ptr != 0 && !inside)
      && (v == HeaderCorrupted <==> inside && m[b] != 0xDEAD_BEEF)
      && (inside && m[b] == 0xDEAD_BEEF ==>
           var tail := (b + 20 + m[b + 4]) % 0x1_0000_0000;
           && tail < |m|
           && (v == TailCorrupted <==> m[tail] != 0xDEAD_BEEF)
           && (v == HeapCorrupted <==> m[tail] == 0xDEAD_BEEF && (m[b + 4] == 0 || tail > end))
           && (v == DoubleFree <==> m[tail] == 0xDEAD_BEEF && m[b + 4] != 0 && tail <= end && m[b + 8] != 0)
           && (v == Freed <==> m[tail] == 0xDEAD_BEEF && m[b + 4] != 0 && tail <= end && m[b + 8] == 0))
      && (v in {TailCorrupted, HeapCorrupted, DoubleFree, Freed} ==> inside && m[b] == 0xDEAD_BEEF)
  {
    if ptr >= 20 { assert BlockOf(ptr) == ptr - 20; }
    else { assert BlockOf(ptr) == ptr - 20 + TWO32; }
  }

  /** The header, guard word and extent of a block are in order. */
  lemma GoodBlockChecks(m: seq<Word>, b: Block, prev: int, next: int, end: int)
    requires BlockOk(b, end) && end < HEAP_END && |m| == RAM && BlockAt(m, b, prev, next) && m[PayloadEnd(b)] == MAGIC
    ensures var ptr := b.addr + HEADER;
      Readable(m, end, ptr) && Check(m, end, ptr) == if b.free then DoubleFree else Freed
  {
    assert BlockOf(b.addr + HEADER) == b.addr;
    assert TailOf(m, b.addr) == PayloadEnd(b);
    PayloadEndAligned(b, end);
  }

  lemma PayloadEndAligned(b: Block, end: int)
    requires BlockOk(b, end)
    ensures PayloadEnd(b) % 4 == 0
  {
    AlignedSum(b.addr + HEADER, b.size);
  }

  /** A listed block passes every check but the last, and fails that exactly
      when it is already free. */
  lemma ListedBlockChecks(m: seq<Word>, h: Heap, i: nat)
    requires WellFormed(h) && Headers(m, h.blocks) && Guards(m, h.blocks) && i < |h.blocks|
    ensures var ptr := h.blocks[i].addr + HEADER;
      Readable(m, h.end, ptr) && Check(m, h.end, ptr) == if h.blocks[i].free then DoubleFree else Freed
  {
    var b := h.blocks[i];
    assert HeaderAt(m, h.blocks, i) && GuardAt(m, h.blocks, i) && BlockOk(b, h.end);
    assert Roomy(h.blocks, i);
    GoodBlockChecks(m, b, AddrOf(h.blocks, i - 1), AddrOf(h.blocks, i + 1), h.end);
  }

  // ----- payloads through a merge

  ghost predicate OffPayloads(bs: seq<Block>, i: int, a: int) {
    forall j :: 0 <= j < |bs| && j != i && !bs[j].free ==> a < bs[j].addr + HEADER || PayloadEnd(bs[j]) <= a
  }

  lemma HeaderOffPayloads(bs: seq<Block>, i: int, k: nat, a: int)
    requires Extents(bs) && k < |bs| && bs[k].addr <= a < bs[k].addr + HEADER
    ensures OffPayloads(bs, i, a)
  {
  }

  lemma MergeKeepsPayloads(m0: seq<Word>, m1: seq<Word>, bs: seq<Block>, i: int, at: int, size: int, next: int, y: int)
    requires MergeStores(m0, m1, at, size, next, y) && Extents(bs)
    requires OffPayloads(bs, i, at + SIZE_AT) && OffPayloads(bs, i, at + NEXT_AT) && OffPayloads(bs, i, y)
    requires OffPayloads(bs, i, next + PREV_AT)
    ensures KeepsPayloads(m0, m1, bs, i)
  {
  }
}

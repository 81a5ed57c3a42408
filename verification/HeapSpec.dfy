/** The kernel heap as a list of blocks in address order, and what one call of
    the allocator does to that list.

    Two layouts are described by the same functions. `Coded` is the layout
    that src/kernel/mm/heap.c computes literally. `Intended` is the layout its
    accounting assumes (20-byte header, payload, 4-byte guard word): the first
    block reserves its guard word, a split places the remainder after the guard
    word of the left part, and a block trimmed off the top is also unlinked. */
module HeapSpec {
  import opened Words

  const HEAP_START := 0x400000
  const HEAP_END := 0x800000
  const HEADER := 20
  const GUARD := 4
  const MIN_BLOCK := 8
  const MAGIC := 0xDEAD_BEEF

  datatype Layout = Coded | Intended

  datatype Block = Block(addr: int, size: int, free: bool)

  datatype Heap = Heap(blocks: seq<Block>, end: int)

  datatype Answer = Answer(heap: Heap, ptr: int)

  /** What the layout leaves between a payload and the next header on the two
      paths where the code forgets the guard word. */
  function Pad(l: Layout): int {
    if l.Intended? then GUARD else 0
  }

  /** First address behind the payload, where the guard word is written. */
  function PayloadEnd(b: Block): int {
    b.addr + HEADER + b.size
  }

  // ----- kmalloc

  function AlignUp(size: int): int {
    W32(size + 7) / 8 * 8
  }

  /** The add-and-mask of the code on 32-bit words: the next multiple of eight, or
      less than the request when the addition wraps. HeapTheorems.RoundedUp says the
      same of AlignUp. */
  lemma AlignMask(x: bv32)
    ensures var y := (x + 7) & 0xFFFF_FFF8;
      && y == (x + 7) / 8 * 8
      && (x <= 0xFFFF_FFF8 ==> x <= y && y - x < 8 && y % 8 == 0)
      && (x > 0xFFFF_FFF8 ==> y < x)
  {
  }

  /** The early bound of kmalloc, an unsigned subtraction that can wrap. */
  function EarlyLimit(end: int): int {
    W32(HEAP_END - end - HEADER - GUARD)
  }

  predicate Fits(b: Block, n: int) {
    b.free && b.size >= n
  }

  /** Index of the first block that fits, or the length of the list. */
  function FirstFit(bs: seq<Block>, n: int): (i: nat)
    ensures i <= |bs|
    ensures forall j :: 0 <= j < i ==> !Fits(bs[j], n)
    ensures i < |bs| ==> Fits(bs[i], n)
  {
    if bs == [] || Fits(bs[0], n) then 0 else 1 + FirstFit(bs[1..], n)
  }

  lemma FirstFitIs(bs: seq<Block>, n: int, i: nat)
    requires i <= |bs| && (i < |bs| ==> Fits(bs[i], n)) && forall j :: 0 <= j < i ==> !Fits(bs[j], n)
    ensures FirstFit(bs, n) == i
  {
  }

  function Left(b: Block, n: int): Block {
    Block(b.addr, n, false)
  }

  function Right(l: Layout, b: Block, n: int): Block {
    Block(b.addr + HEADER + n + Pad(l), W32(b.size - n - HEADER - GUARD), true)
  }

  function Take(l: Layout, h: Heap, i: nat, n: int): Heap
    requires i < |h.blocks|
  {
    var b := h.blocks[i];
    if b.size >= W32(n + HEADER + GUARD + MIN_BLOCK) then
      Heap(h.blocks[..i] + [Left(b, n), Right(l, b, n)] + h.blocks[i + 1..], h.end)
    else
      Heap(h.blocks[i := b.(free := false)], h.end)
  }

  function AllocateFirst(l: Layout, h: Heap, n: int): Answer {
    var newEnd := W32(h.end + HEADER + n + Pad(l));
    if newEnd >= HEAP_END then Answer(h, 0)
    else Answer(Heap([Block(h.end, n, false)], newEnd), h.end + HEADER)
  }

  function Append(h: Heap, n: int): Answer {
    var newEnd := W32(h.end + HEADER + n + GUARD);
    if newEnd < h.end || newEnd >= HEAP_END then Answer(h, 0)
    else Answer(Heap(h.blocks + [Block(h.end, n, false)], newEnd), h.end + HEADER)
  }

  function Allocate(l: Layout, h: Heap, size: int): Answer {
    var n := AlignUp(size);
    if size == 0 || n < size || n > EarlyLimit(h.end) then Answer(h, 0)
    else if h.blocks == [] then AllocateFirst(l, h, n)
    else
      var i := FirstFit(h.blocks, n);
      if i < |h.blocks| then Answer(Take(l, h, i, n), h.blocks[i].addr + HEADER)
      else Append(h, n)
  }

  /** The one request that slips past both bounds of kmalloc: with less than a
      header and a guard word left above `end` the early bound wraps, and a
      request just below 4 GiB then wraps the new end back into the heap. */
  predicate BoundWraps(end: int, n: int) {
    && HEAP_END - HEADER - GUARD < end
    && TWO32 - HEADER - GUARD <= n
    && end + (n - (TWO32 - HEADER - GUARD)) < HEAP_END
  }

  // ----- kfree

  /** Index of the used block whose payload starts at ptr, or the length. */
  function LiveIndex(bs: seq<Block>, ptr: int): (i: nat)
    ensures i <= |bs|
    ensures i < |bs| ==> !bs[i].free && bs[i].addr + HEADER == ptr
    ensures forall j :: 0 <= j < i ==> bs[j].free || bs[j].addr + HEADER != ptr
  {
    if bs == [] || (!bs[0].free && bs[0].addr + HEADER == ptr) then 0
    else 1 + LiveIndex(bs[1..], ptr)
  }

  /** Effect on the block behind it of writing a guard word at address a: on
      top of its magic word nothing changes, on top of its size or free flag
      the field is destroyed. */
  function Stamp(b: Block, a: int): Block {
    if a == b.addr + 4 then b.(size := MAGIC)
    else if a == b.addr + 8 then b.(free := true)
    else b
  }

  function StampHead(bs: seq<Block>, a: int): seq<Block> {
    if bs == [] then [] else [Stamp(bs[0], a)] + bs[1..]
  }

  function Joined(b: Block, c: Block): Block {
    b.(size := W32(b.size + HEADER + c.size + GUARD))
  }

  /** Absorbs block i+1 into block i and writes the guard word of the result. */
  function Merge(bs: seq<Block>, i: nat): seq<Block>
    requires i + 1 < |bs|
  {
    var b := Joined(bs[i], bs[i + 1]);
    bs[..i] + [b] + StampHead(bs[i + 2..], PayloadEnd(b))
  }

  function Mark(bs: seq<Block>, i: nat): seq<Block>
    requires i < |bs|
  {
    bs[i := bs[i].(free := true)]
  }

  function MergeNext(bs: seq<Block>, i: nat): (r: seq<Block>)
    requires i < |bs|
    ensures i < |r|
  {
    if i + 1 < |bs| && bs[i + 1].free then Merge(bs, i) else bs
  }

  function MergePrev(bs: seq<Block>, i: nat): seq<Block>
    requires i < |bs|
  {
    if 0 < i && bs[i - 1].free then Merge(bs, i - 1) else bs
  }

  function Coalesce(bs: seq<Block>, i: nat): seq<Block>
    requires i < |bs|
  {
    MergePrev(MergeNext(Mark(bs, i), i), i)
  }

  /** Whether the guard word of the merge into the previous block would land on
      the freed block's own link words, which the code still reads afterwards. */
  predicate GuardHitsLinks(bs: seq<Block>, i: nat)
    requires i < |bs|
  {
    0 < i && bs[i - 1].free && (PayloadEnd(Joined(bs[i - 1], bs[i])) - bs[i].addr) in {12, 16}
  }

  /** Releases that follow a guard word as if it were a link. Release does not
      describe these; they only exist in the coded layout. */
  predicate GoesAstray(h: Heap, ptr: int) {
    var i := LiveIndex(h.blocks, ptr);
    i < |h.blocks| && GuardHitsLinks(MergeNext(Mark(h.blocks, i), i), i)
  }

  /** Whether that guard word lands on the size word of the freed block's header,
      which stays behind in memory when the block is absorbed. Release is exact,
      but the checks of a second kfree of the same pointer read that word. */
  predicate GuardHitsSize(bs: seq<Block>, i: nat)
    requires i < |bs|
  {
    0 < i && bs[i - 1].free && PayloadEnd(Joined(bs[i - 1], bs[i])) - bs[i].addr == 4
  }

  /** Releases after which the freed pointer's stale header is unreadable. */
  predicate SpoilsHeader(h: Heap, ptr: int) {
    var i := LiveIndex(h.blocks, ptr);
    i < |h.blocks| && GuardHitsSize(MergeNext(Mark(h.blocks, i), i), i)
  }

  /** Pointers whose fate in kfree the list alone decides: NULL, a header outside
      the heap, or a listed block. Any other pointer is judged by whatever words
      lie in front of it. */
  ghost predicate Judged(h: Heap, ptr: int) {
    ptr == 0 || !(HEAP_START <= ptr - HEADER < h.end) || exists i :: 0 <= i < |h.blocks| && h.blocks[i].addr + HEADER == ptr
  }

  function Trim(l: Layout, bs: seq<Block>, end: int): Heap
    requires bs != []
  {
    var last := bs[|bs| - 1];
    if !last.free then Heap(bs, end)
    else if |bs| == 1 then Heap([], HEAP_START)
    else Heap(if l.Intended? then bs[..|bs| - 1] else bs, last.addr)
  }

  function Release(l: Layout, h: Heap, ptr: int): Heap {
    var i := LiveIndex(h.blocks, ptr);
    if i == |h.blocks| then h else Trim(l, Coalesce(h.blocks, i), h.end)
  }

  // ----- invariants

  predicate BlockOk(b: Block, end: int) {
    && HEAP_START <= b.addr && b.addr % 4 == 0
    && 8 <= b.size && b.size % 8 == 0
    && PayloadEnd(b) <= end
  }

  ghost predicate AllOk(bs: seq<Block>, end: int) {
    forall i {:trigger BlockOk(bs[i], end)} :: 0 <= i < |bs| ==> BlockOk(bs[i], end)
  }

  ghost predicate Ordered(bs: seq<Block>) {
    forall i, j :: 0 <= i < j < |bs| ==> PayloadEnd(bs[i]) <= bs[j].addr
  }

  /** Header-plus-payload extents lie in address order inside [start, end). */
  ghost predicate WellFormed(h: Heap) {
    && HEAP_START <= h.end < HEAP_END && h.end % 4 == 0
    && (h.blocks == [] ==> h.end == HEAP_START)
    && (h.blocks != [] ==> h.blocks[0].addr == HEAP_START)
    && AllOk(h.blocks, h.end)
    && Ordered(h.blocks)
  }

  /** No two neighbours are free. */
  ghost predicate Coalesced(bs: seq<Block>) {
    forall i, j :: 0 <= i && j == i + 1 && j < |bs| ==> !(bs[i].free && bs[j].free)
  }

  /** No two neighbours are free, and the last block is used. */
  ghost predicate Tidy(bs: seq<Block>) {
    Coalesced(bs) && (bs != [] ==> !bs[|bs| - 1].free)
  }

  /** Bytes a list of blocks accounts for. */
  function Stride(bs: seq<Block>): int {
    if bs == [] then 0 else HEADER + bs[0].size + GUARD + Stride(bs[1..])
  }

  /** Header, payload and guard word of the blocks tile [lo, hi) exactly. */
  ghost predicate Tiles(bs: seq<Block>, lo: int, hi: int) {
    if bs == [] then lo == hi
    else bs[0].addr == lo && Tiles(bs[1..], PayloadEnd(bs[0]) + GUARD, hi)
  }

  ghost predicate Tiled(h: Heap) {
    Tiles(h.blocks, HEAP_START, h.end)
  }

  ghost predicate Inv(h: Heap) {
    WellFormed(h) && Tiled(h) && Tidy(h.blocks)
  }

  const EMPTY := Heap([], HEAP_START)
}

/** The physical memory manager of src/kernel/mm/pmm.c. */
module FrameAllocator {
  import opened Words
  import opened Frames

  const TWO64 := 0x1_0000_0000_0000_0000

  /** 64-bit unsigned wrap-around. */
  function W64(x: int): (r: int)
    ensures 0 <= r < TWO64
    ensures 0 <= x < TWO64 ==> r == x
  {
    x % TWO64
  }

  /** One entry of the Multiboot memory map: `size` counts the bytes after the
      size field itself, `addr` and `len` are 64-bit, type 1 is usable memory. */
  datatype Entry = Entry(size: int, addr: int, len: int, kind: int)

  predicate EntryOk(e: Entry) {
    0 <= e.size && 0 <= e.addr < TWO64 && 0 <= e.len < TWO64
  }

  /** The entries that a walk by size + 4 decodes from p up to stop. Their
      contents are arbitrary. */
  ghost predicate Walkable(memory: map<int, Entry>, p: int, stop: int)
    decreases stop - p
  {
    p < stop ==>
      && p in memory && EntryOk(memory[p])
      && p + memory[p].size + 4 < TWO32
      && Walkable(memory, p + memory[p].size + 4, stop)
  }

  ghost function Entries(memory: map<int, Entry>, p: int, stop: int): (es: seq<Entry>)
    requires Walkable(memory, p, stop)
    ensures forall e :: e in es ==> EntryOk(e)
    decreases stop - p
  {
    if p >= stop then [] else [memory[p]] + Entries(memory, p + memory[p].size + 4, stop)
  }

  /** The end of a region as pmm_init sees it: its low 32 bits. */
  function RegionEnd(e: Entry): (r: int)
    ensures 0 <= r < TWO32
  {
    W32(W64(e.addr + e.len))
  }

  ghost function Highest(es: seq<Entry>): (h: nat)
    ensures h < TWO32
    ensures forall e :: e in es ==> RegionEnd(e) <= h
    ensures h == 0 || exists e :: e in es && RegionEnd(e) == h
  {
    if es == [] then 0
    else
      var h := Highest(es[1..]);
      if RegionEnd(es[0]) > h then RegionEnd(es[0]) else h
  }

  function Max(a: nat, b: nat): nat {
    if a > b then a else b
  }

  lemma HighestStep(memory: map<int, Entry>, p: int, stop: int)
    requires Walkable(memory, p, stop) && p < stop
    ensures Highest(Entries(memory, p, stop))
      == Max(RegionEnd(memory[p]), Highest(Entries(memory, p + memory[p].size + 4, stop)))
  {
    var rest := Entries(memory, p + memory[p].size + 4, stop);
    assert ([memory[p]] + rest)[1..] == rest;
  }

  function FirstFrame(e: Entry): (f: int)
    ensures 0 <= f < TWO32
  {
    W32(e.addr / FRAME_SIZE)
  }

  function EndFrame(e: Entry): (f: int)
    ensures 0 <= f < TWO32
  {
    W32(W64(e.addr + e.len) / FRAME_SIZE)
  }

  /** Frame f lies in the range of a usable entry, whose bounds the code divides
      by the frame size and cuts to 32 bits. */
  ghost predicate Covers(e: Entry, f: int) {
    e.kind == 1 && FirstFrame(e) <= f < EndFrame(e)
  }

  /** The two cuts of a region, written out. */
  lemma CutsMean(e: Entry, f: int)
    requires EntryOk(e)
    ensures RegionEnd(e) == (e.addr + e.len) % 0x1_0000_0000_0000_0000 % 0x1_0000_0000
    ensures Covers(e, f) <==>
      e.kind == 1 && e.addr / 4096 % 0x1_0000_0000 <= f < (e.addr + e.len) % 0x1_0000_0000_0000_0000 / 4096 % 0x1_0000_0000
  {
  }

  /** For entries that end below 2^44 that is the floor-divided range. */
  lemma CoversIsPlain(e: Entry, f: int)
    requires EntryOk(e) && e.addr + e.len < TWO32 * FRAME_SIZE
    ensures Covers(e, f) <==> e.kind == 1 && e.addr / FRAME_SIZE <= f < (e.addr + e.len) / FRAME_SIZE
  {
    BelowTop(e.addr);
    BelowTop(e.addr + e.len);
  }

  lemma BelowTop(x: int)
    requires 0 <= x < TWO32 * FRAME_SIZE
    ensures 0 <= x / FRAME_SIZE < TWO32
  {
  }

  ghost predicate Usable(es: seq<Entry>, f: int) {
    exists i :: 0 <= i < |es| && Covers(es[i], f)
  }

  lemma UsableSnoc(es: seq<Entry>, e: Entry, f: int)
    ensures Usable(es + [e], f) <==> Usable(es, f) || Covers(e, f)
  {
    if Usable(es, f) {
      var i :| 0 <= i < |es| && Covers(es[i], f);
      assert Covers((es + [e])[i], f);
    }
    if Covers(e, f) { assert Covers((es + [e])[|es|], f); }
  }

  const MISSING_MEMORY_MAP := 1

  /** First address behind the bitmap, rounded up to a frame. */
  function BitmapEnd(kernelEnd: nat, total: nat): nat {
    (kernelEnd + (total + 31) / 32 * 4 + FRAME_SIZE - 1) / FRAME_SIZE * FRAME_SIZE
  }

  /** The bitmap has bits for its own frames, which end below 2^32. */
  predicate BitmapFits(kernelEnd: nat, total: nat) {
    BitmapEnd(kernelEnd, total) / FRAME_SIZE <= 32 * ((total + 31) / 32) && BitmapEnd(kernelEnd, total) < TWO32
  }

  predicate KernelFrame(f: nat, kernelStart: nat, kernelEnd: nat) {
    kernelStart / FRAME_SIZE <= f < (kernelEnd + FRAME_SIZE - 1) / FRAME_SIZE
  }

  lemma BitmapEndsLast(kernelEnd: nat, total: nat)
    ensures (kernelEnd + FRAME_SIZE - 1) / FRAME_SIZE <= BitmapEnd(kernelEnd, total) / FRAME_SIZE
  {
  }

  predicate Within(x: nat, from: nat, to: nat) {
    from <= x < to
  }

  /** Frame f contains a byte of [from, to). */
  ghost predicate Overlaps(f: nat, from: nat, to: nat) {
    exists x: nat :: Within(x, from, to) && x / 4096 == f
  }

  /** The reserved frames are those that hold a byte of the kernel or of the bitmap
      behind it. */
  lemma ReservedBytes(f: nat, kernelStart: nat, kernelEnd: nat, total: nat)
    requires kernelStart <= kernelEnd && f < Limit(total)
    ensures KernelFrame(f, kernelStart, kernelEnd) || BitmapFrame(f, kernelEnd, total)
      <==> Overlaps(f, kernelStart, kernelEnd + 4 * ((total + 31) / 32))
  {
    var to := kernelEnd + 4 * ((total + 31) / 32);
    FramesCovering(f, kernelStart, kernelEnd);
    FramesCovering(f, kernelEnd, to);
    RoundedEnd(kernelEnd, total);
    OverlapIs(f, kernelStart, to);
  }

  lemma OverlapIs(f: nat, from: nat, to: nat)
    requires from < to
    ensures Overlaps(f, from, to) <==> from < 4096 * f + 4096 && 4096 * f < to
  {
    if from < 4096 * f + 4096 && 4096 * f < to {
      var x := if from < 4096 * f then 4096 * f else from;
      assert Within(x, from, to) && x / 4096 == f;
    }
  }

  /** Frames from one address, rounded down, to another, rounded up. */
  lemma FramesCovering(f: nat, from: nat, to: nat)
    ensures from / 4096 <= f <==> from < 4096 * f + 4096
    ensures f < (to + 4095) / 4096 <==> 4096 * f < to
  {
  }

  lemma RoundedEnd(kernelEnd: nat, total: nat)
    ensures BitmapEnd(kernelEnd, total) / FRAME_SIZE == (kernelEnd + 4 * ((total + 31) / 32) + 4095) / 4096
  {
    MultipleOfFrame((kernelEnd + (total + 31) / 32 * 4 + FRAME_SIZE - 1) / FRAME_SIZE);
  }

  predicate BitmapFrame(f: nat, kernelEnd: nat, total: nat) {
    kernelEnd / FRAME_SIZE <= f < BitmapEnd(kernelEnd, total) / FRAME_SIZE
  }

  class FrameAllocator {
    var bitmap: array<bv32>
    var totalFrames: nat

    ghost predicate Valid()
      reads this
    {
      bitmap.Length == (totalFrames + 31) / 32 && totalFrames <= TWO32 / FRAME_SIZE
    }

    ghost function Used(): set<nat>
      reads this, bitmap
    {
      UsedFrames(bitmap[..])
    }

    constructor ()
      ensures Valid() && totalFrames == 0 && fresh(bitmap)
    {
      bitmap := new bv32[0];
      totalFrames := 0;
    }

    /** pmm_init. The usable ranges become free, then the kernel's frames and the
        bitmap's own frames are reserved. */
    method PmmInit(hasMap: bool, memory: map<int, Entry>, mmapAddr: nat, mmapLength: nat, kernelStart: nat, kernelEnd: nat)
      returns (status: int)
      requires Walkable(memory, mmapAddr, mmapAddr + mmapLength) && mmapAddr + mmapLength < TWO32
      requires kernelStart <= kernelEnd
      requires BitmapFits(kernelEnd, Highest(Entries(memory, mmapAddr, mmapAddr + mmapLength)) / FRAME_SIZE)
      modifies this
      ensures !hasMap ==> status == MISSING_MEMORY_MAP && bitmap == old(bitmap) && totalFrames == old(totalFrames)
      ensures hasMap ==>
        var es := Entries(memory, mmapAddr, mmapAddr + mmapLength);
        && status == 0 && Valid() && fresh(bitmap) && totalFrames == Highest(es) / FRAME_SIZE
        && forall f: nat :: f < Limit(totalFrames) ==>
             (f !in Used() <==> Usable(es, f) && !Overlaps(f, kernelStart, kernelEnd + 4 * ((totalFrames + 31) / 32)))
    {
      if !hasMap { return MISSING_MEMORY_MAP; }
      var highest := HighestAddress(memory, mmapAddr, mmapAddr + mmapLength);
      totalFrames := highest / FRAME_SIZE;
      ghost var es := Entries(memory, mmapAddr, mmapAddr + mmapLength);
      assert totalFrames == Highest(es) / FRAME_SIZE;
      BuildBitmap(memory, mmapAddr, mmapAddr + mmapLength, kernelStart, kernelEnd);
      return 0;
    }

    /** The second half of pmm_init, from the placing of the bitmap on. */
    method BuildBitmap(memory: map<int, Entry>, start: nat, stop: nat, kernelStart: nat, kernelEnd: nat)
      requires Walkable(memory, start, stop) && stop < TWO32 && kernelStart <= kernelEnd
      requires totalFrames <= TWO32 / FRAME_SIZE && BitmapFits(kernelEnd, totalFrames)
      modifies this`bitmap
      ensures Valid() && fresh(bitmap)
      ensures forall f: nat :: f < Limit(totalFrames) ==>
        (f !in Used() <==>
          Usable(Entries(memory, start, stop), f) && !Overlaps(f, kernelStart, kernelEnd + 4 * ((totalFrames + 31) / 32)))
    {
      bitmap := new bv32[(totalFrames + 31) / 32];
      MarkAll();
      FreeUsable(memory, start, stop);
      Reserve(kernelStart, kernelEnd);
    }

    /** Reserves the frames of the kernel and of the bitmap behind it. */
    method Reserve(kernelStart: nat, kernelEnd: nat)
      requires Valid() && kernelStart <= kernelEnd
      requires BitmapFits(kernelEnd, totalFrames)
      modifies bitmap
      ensures forall f: nat :: f < Limit(totalFrames) ==>
        (f in Used() <==> f in old(Used()) || Overlaps(f, kernelStart, kernelEnd + 4 * ((totalFrames + 31) / 32)))
    {
      BitmapEndsLast(kernelEnd, totalFrames);
      ReserveFrames(kernelStart / FRAME_SIZE, (kernelEnd + FRAME_SIZE - 1) / FRAME_SIZE);
      ReserveFrames(kernelEnd / FRAME_SIZE, BitmapEnd(kernelEnd, totalFrames) / FRAME_SIZE);
      forall f: nat | f < Limit(totalFrames)
        ensures f in Used() <==> f in old(Used()) || Overlaps(f, kernelStart, kernelEnd + 4 * ((totalFrames + 31) / 32))
      {
        ReservedBytes(f, kernelStart, kernelEnd, totalFrames);
      }
    }

    /** The first walk: the highest end of any region. */
    static method HighestAddress(memory: map<int, Entry>, start: nat, stop: nat) returns (highest: nat)
      requires Walkable(memory, start, stop)
      ensures highest == Highest(Entries(memory, start, stop))
    {
      highest := 0;
      var p: int := start;
      while p < stop
        invariant start <= p && Walkable(memory, p, stop)
        invariant Max(highest, Highest(Entries(memory, p, stop))) == Highest(Entries(memory, start, stop))
        decreases stop - p
      {
        highest, p := VisitRegion(memory, p, stop, highest);
      }
    }

    /** One round of that walk. */
    static method VisitRegion(memory: map<int, Entry>, p: nat, stop: nat, highest: nat) returns (h: nat, next: nat)
      requires Walkable(memory, p, stop) && p < stop
      ensures next == p + memory[p].size + 4 && Walkable(memory, next, stop)
      ensures Max(h, Highest(Entries(memory, next, stop))) == Max(highest, Highest(Entries(memory, p, stop)))
    {
      HighestStep(memory, p, stop);
      var regionEnd := W32(W64(memory[p].addr + memory[p].len));
      h := if regionEnd > highest then regionEnd else highest;
      next := W32(p + memory[p].size + 4);
    }

    method MarkAll()
      requires Valid()
      modifies bitmap
      ensures forall f: nat :: f < Limit(totalFrames) ==> f in Used()
    {
      var i := 0;
      while i < totalFrames / 32
        invariant 0 <= i <= totalFrames / 32
        invariant forall k :: 0 <= k < i ==> bitmap[k] == 0xFFFF_FFFF
      {
        bitmap[i] := 0xFFFF_FFFF;
        i := i + 1;
      }
      forall f: nat | f < Limit(totalFrames) ensures f in Used() {
        AllOnes(bitmap[f / 32], Place(f));
        assert Marked(bitmap[..], f);
      }
    }

    /** The second walk: the frames of every usable entry are cleared. */
    method FreeUsable(memory: map<int, Entry>, start: nat, stop: nat)
      requires Valid() && Walkable(memory, start, stop)
      requires forall f: nat :: f < Limit(totalFrames) ==> f in Used()
      modifies bitmap
      ensures forall f: nat :: f < Limit(totalFrames) ==> (f !in Used() <==> Usable(Entries(memory, start, stop), f))
    {
      var p: int := start;
      ghost var done: seq<Entry> := [];
      while p < stop
        invariant start <= p && Walkable(memory, p, stop)
        invariant done + Entries(memory, p, stop) == Entries(memory, start, stop)
        invariant forall f: nat :: f < Limit(totalFrames) ==> (f !in Used() <==> Usable(done, f))
        decreases stop - p
      {
        var e := memory[p];
        if e.kind == 1 {
          ClearRange(W32(e.addr / FRAME_SIZE), W32(W64(e.addr + e.len) / FRAME_SIZE));
        }
        forall f: nat ensures Usable(done + [e], f) <==> Usable(done, f) || Covers(e, f) { UsableSnoc(done, e, f); }
        assert done + ([e] + Entries(memory, p + e.size + 4, stop)) == done + [e] + Entries(memory, p + e.size + 4, stop);
        done := done + [e];
        p := W32(p + e.size + 4);
      }
      assert done + [] == done;
    }

    method ClearRange(first: nat, end: nat)
      requires Valid()
      modifies bitmap
      ensures forall f: nat :: f < totalFrames ==> (f !in Used() <==> f !in old(Used()) || first <= f < end)
    {
      var f := first;
      while f < end
        invariant first <= f && (f == first || f <= end)
        invariant forall g: nat :: g < totalFrames ==> (g !in Used() <==> g !in old(Used()) || first <= g < f)
      {
        if f < totalFrames { ClearFrame(f); }
        f := f + 1;
      }
    }

    method ReserveFrames(first: nat, end: nat)
      requires Valid() && end <= 32 * bitmap.Length
      modifies bitmap
      ensures forall f: nat :: f in Used() <==> f in old(Used()) || first <= f < end
    {
      var f := first;
      while f < end
        invariant first <= f && (f == first || f <= end)
        invariant forall g: nat :: g in Used() <==> g in old(Used()) || first <= g < f
      {
        SetFrame(f);
        f := f + 1;
      }
    }

    method SetFrame(frame: nat)
      requires frame < 32 * bitmap.Length
      modifies bitmap
      ensures Used() == old(Used()) + {frame}
    {
      MarkOne(bitmap[..], frame);
      ghost var bm := bitmap[..];
      bitmap[frame / 32] := WithBit(bitmap[frame / 32], Place(frame));
      assert bitmap[..] == bm[frame / 32 := WithBit(bm[frame / 32], Place(frame))];
    }

    method ClearFrame(frame: nat)
      requires frame < 32 * bitmap.Length
      modifies bitmap
      ensures Used() == old(Used()) - {frame}
    {
      UnmarkOne(bitmap[..], frame);
      ghost var bm := bitmap[..];
      bitmap[frame / 32] := WithoutBit(bitmap[frame / 32], Place(frame));
      assert bitmap[..] == bm[frame / 32 := WithoutBit(bm[frame / 32], Place(frame))];
    }

    method FirstFreeFrame() returns (r: int)
      requires Valid()
      ensures var f := LowestFree(Used(), 0, Limit(totalFrames)); r == if f == Limit(totalFrames) then -1 else f
    {
      var i := 0;
      while i < totalFrames / 32
        invariant 0 <= i <= totalFrames / 32
        invariant forall g: nat :: g < 32 * i ==> Marked(bitmap[..], g)
      {
        if bitmap[i] != 0xFFFF_FFFF {
          NotAllOnes(bitmap[i]);
          var j := 0;
          while j < 32
            invariant 0 <= j <= 32
            invariant forall k: nat :: k < j ==> Bit(bitmap[i], Place(k))
          {
            if !Bit(bitmap[i], Place(j)) {
              FoundFree(bitmap[..], i, j, Limit(totalFrames));
              return i * 32 + j;
            }
            j := j + 1;
          }
          assert false;
        }
        FullWord(bitmap[..], i);
        i := i + 1;
      }
      return -1;
    }

    /** pmm_alloc_frame: the address of the lowest free frame below the last
        whole bitmap word, or NULL (which is also the address of frame 0). */
    method AllocFrame() returns (address: int)
      requires Valid()
      modifies bitmap
      ensures var f := LowestFree(old(Used()), 0, Limit(totalFrames));
        if f == Limit(totalFrames) then address == 0 && Used() == old(Used())
        else address == f * FRAME_SIZE && Used() == old(Used()) + {f}
      ensures Serves(old(Used()), totalFrames, Alloc, Used(), if address == 0 then {} else {address / FRAME_SIZE}, {})
    {
      AllocServes(Used(), totalFrames);
      var frame := FirstFreeFrame();
      if frame == -1 { return 0; }
      SetFrame(frame);
      MultipleOfFrame(frame);
      return frame * FRAME_SIZE;
    }

    method FreeFrame(address: nat)
      requires Valid() && address / FRAME_SIZE < 32 * bitmap.Length
      modifies bitmap
      ensures Used() == old(Used()) - {address / FRAME_SIZE}
      ensures Serves(old(Used()), totalFrames, Free(address / FRAME_SIZE), Used(), {}, {address / FRAME_SIZE})
    {
      ClearFrame(address / FRAME_SIZE);
    }

    method FreeFrames() returns (free: nat)
      requires Valid()
      ensures free == FreeCount(Used(), totalFrames) == |set f: nat | f < totalFrames && f !in Used()|
    {
      free := 0;
      var i := 0;
      while i < totalFrames
        invariant 0 <= i <= totalFrames && free == FreeCount(Used(), i)
      {
        CountStep(Used(), i);
        assert i in Used() <==> Marked(bitmap[..], i);
        if !Bit(bitmap[i / 32], Place(i)) { free := free + 1; }
        i := i + 1;
      }
    }
  }

  lemma FullWord(bm: seq<bv32>, i: nat)
    requires i < |bm| && bm[i] == 0xFFFF_FFFF && forall g: nat :: g < 32 * i ==> Marked(bm, g)
    ensures forall g: nat :: g < 32 * (i + 1) ==> Marked(bm, g)
  {
    forall g: nat | g < 32 * (i + 1) ensures Marked(bm, g) {
      if 32 * i <= g { AllOnes(bm[i], Place(g)); }
    }
  }

  lemma FoundFree(bm: seq<bv32>, i: nat, j: nat, limit: nat)
    requires i < |bm| && j < 32 && !Bit(bm[i], Place(j)) && 32 * (i + 1) <= limit <= 32 * |bm|
    requires forall g: nat :: g < 32 * i ==> Marked(bm, g)
    requires forall k: nat :: k < j ==> Bit(bm[i], Place(k))
    ensures LowestFree(UsedFrames(bm), 0, limit) == 32 * i + j
  {
    var n := 32 * i + j;
    PlaceInWord(i, j);
    assert n !in UsedFrames(bm);
    forall g: nat | g < n ensures Marked(bm, g) {
      if 32 * i <= g { PlaceInWord(i, g - 32 * i); }
    }
  }

  /** The kernel is linked at 1 MiB, and memory maps begin with a usable entry at
      address 0: after pmm_init frame 0 is then free. */
  lemma BootLeavesFrameZeroFree(es: seq<Entry>, kernelStart: nat, kernelEnd: nat, total: nat)
    requires es != [] && es[0].kind == 1 && es[0].addr == 0 && FRAME_SIZE <= es[0].len < TWO32
    requires FRAME_SIZE <= kernelStart <= kernelEnd
    ensures Usable(es, 0) && !Overlaps(0, kernelStart, kernelEnd + 4 * ((total + 31) / 32))
  {
    assert Covers(es[0], 0);
  }
}

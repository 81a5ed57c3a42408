/** The page tables of src/kernel/mm/paging.c and the demand-paging step of
    src/kernel/core/idt.c. Translation is the walk of the current tables. */
module PageMapper {
  import opened Words
  import opened Frames
  import opened FrameAllocator
  import opened Paging
  import opened DemandPaging

  /** What a page fault leads to. The last two end in a kernel panic. */
  datatype FaultOutcome = Recovered | OutOfMemory | Fatal

  const KERNEL_HEAP_START := 0x400000
  const KERNEL_HEAP_END := 0x800000

  class PageMapper {
    const directory: array<Word>
    const tables: array<Word>
    const ram: array<Word>
    const pmm: FrameAllocator

    /** The frame that the next allocation takes, or the limit. */
    ghost function NextFrame(): nat
      reads pmm, pmm.bitmap
    {
      LowestFree(pmm.Used(), 0, Limit(pmm.totalFrames))
    }

    ghost predicate Shaped()
      reads this, pmm
    {
      && directory.Length == tables.Length == PAGE_ENTRIES && ram.Length == LOW_WORDS
      && directory != tables && directory != ram && tables != ram
      && (pmm.bitmap as object) !in {directory as object, tables as object, ram as object}
      && pmm.Valid()
    }

    ghost predicate Valid()
      reads this, directory, tables, ram, pmm, pmm.bitmap
    {
      Shaped() && 0 in pmm.Used() && Agree(directory[..], tables[..], pmm.Used())
    }

    ghost function View(page: nat): Translation
      requires directory.Length == PAGE_ENTRIES && page < PAGE_ENTRIES * PAGE_ENTRIES
      reads this, directory, ram
    {
      Translate(directory[..], ram[..], page)
    }

    constructor (directory: array<Word>, tables: array<Word>, ram: array<Word>, pmm: FrameAllocator)
      requires directory.Length == tables.Length == PAGE_ENTRIES && ram.Length == LOW_WORDS
      requires directory != tables && directory != ram && tables != ram && pmm.Valid()
      requires (pmm.bitmap as object) !in {directory as object, tables as object, ram as object}
      ensures Shaped() && this.directory == directory && this.tables == tables && this.ram == ram && this.pmm == pmm
    {
      this.directory, this.tables, this.ram, this.pmm := directory, tables, ram, pmm;
    }

    /** Clears the words of one table. */
    method ClearTable(t: Word)
      requires ram.Length == LOW_WORDS && Slot(t, PAGE_ENTRIES) <= LOW_WORDS && t % 4 == 0
      modifies ram
      ensures ClearedTable(old(ram[..]), ram[..], t)
    {
      var i := 0;
      while i < PAGE_ENTRIES
        invariant 0 <= i <= PAGE_ENTRIES
        invariant forall a :: 0 <= a < LOW_WORDS ==> ram[a] == if Slot(t, 0) <= a < Slot(t, i) then 0 else old(ram[a])
      {
        ram[Slot(t, i)] := 0;
        i := i + 1;
      }
    }

    /** paging_init. Every page of the first 4 MiB but page 0 is identity-mapped.
        The first table is wherever the allocator says, even when it answers
        NULL; the array of table addresses then does not show it. */
    method PagingInit()
      requires Shaped() && (NextFrame() < 1024 || NextFrame() == Limit(pmm.totalFrames))
      modifies directory, tables, ram, pmm.bitmap
      ensures Shaped()
      ensures forall page: nat :: page < PAGE_ENTRIES * PAGE_ENTRIES ==>
        View(page) == if 1 <= page < PAGE_ENTRIES then Mapped(page, true) else NotPresent
      ensures pmm.Used() == old(pmm.Used()) + if old(NextFrame()) == Limit(pmm.totalFrames) then {} else {old(NextFrame())}
      ensures IdentityTable(ram[..], tables[0])
      ensures directory[0] == tables[0] + 3 && forall i :: 1 <= i < 1024 ==> directory[i] == 0
      ensures TableAtNull(directory[..], tables[..], 0) <==>
        old(NextFrame()) == Limit(pmm.totalFrames) || 0 !in old(pmm.Used())
      ensures Valid() <==> 0 in pmm.Used()
      ensures Valid() ==> Backing(Machine(), pmm.Used())
    {
      ClearDirectory();
      var first := pmm.AllocFrame();
      MultipleOfFrame(first / FRAME_SIZE);
      FillFirst(first);
      directory[0] := EntryFor(first);
      tables[0] := first;
      FirstAgrees(directory[..], tables[..], pmm.Used(), first);
      forall page: nat | page < PAGE_ENTRIES * PAGE_ENTRIES
        ensures View(page) == if 1 <= page < PAGE_ENTRIES then Mapped(page, true) else NotPresent
      {
        FirstTranslates(directory[..], ram[..], first, page);
      }
      assert forall p: nat :: FIRST_PAGE <= p < LAST_PAGE ==> View(p) == NotPresent;
      assert Machine().backed == map[] && Machine().table == 0;
    }

    method ClearDirectory()
      requires directory.Length == tables.Length == PAGE_ENTRIES && directory != tables
      modifies directory, tables
      ensures forall k :: 0 <= k < PAGE_ENTRIES ==> directory[k] == 0 && tables[k] == 0
    {
      var i := 0;
      while i < PAGE_ENTRIES
        invariant 0 <= i <= PAGE_ENTRIES
        invariant forall k :: 0 <= k < i ==> directory[k] == 0 && tables[k] == 0
      {
        directory[i] := 0;
        tables[i] := 0;
        i := i + 1;
      }
    }

    /** The identity entries of the first table. */
    method FillFirst(first: Word)
      requires ram.Length == LOW_WORDS && first % FRAME_SIZE == 0 && first / FRAME_SIZE < 1024
      modifies ram
      ensures IdentityTable(ram[..], first)
    {
      ClearTable(first);
      FillEntries(first / 4);
    }

    /** The loop over the entries of the first table, whose words start at base. */
    method FillEntries(base: nat)
      requires base + PAGE_ENTRIES <= ram.Length && forall a :: base <= a < base + PAGE_ENTRIES ==> ram[a] == 0
      modifies ram
      ensures forall k: nat :: k < 1024 ==> base + k < ram.Length && ram[base + k] == if k == 0 then 0 else k * 4096 + 3
    {
      var i := 1;
      while i < PAGE_ENTRIES
        invariant 1 <= i <= PAGE_ENTRIES
        invariant forall a :: base <= a < base + PAGE_ENTRIES ==>
          ram[a] == if base < a < base + i then (a - base) * 4096 + 3 else 0
      {
        EntryOfPage(i);
        ram[base + i] := EntryFor(i * FRAME_SIZE);
        i := i + 1;
      }
    }

    /** map_page. A missing table is allocated; its frame must exist and lie in
        low memory, which the code does not check. A table at address 0 counts as
        missing: mapping one of its pages drops all the others. */
    method MapPage(virtual: Word, physical: Word)
      requires Valid()
      requires tables[virtual / FRAME_SIZE / PAGE_ENTRIES] == 0 ==> NextFrame() < Limit(pmm.totalFrames) && NextFrame() < 1024
      modifies directory, tables, ram, pmm.bitmap
      ensures Valid()
      ensures forall page: nat :: page < PAGE_ENTRIES * PAGE_ENTRIES ==>
        View(page) == if page == virtual / FRAME_SIZE then Mapped(physical / FRAME_SIZE, true)
                      else if old(TableAtNull(directory[..], tables[..], virtual / FRAME_SIZE / PAGE_ENTRIES))
                           && page / PAGE_ENTRIES == virtual / FRAME_SIZE / PAGE_ENTRIES then NotPresent
                      else old(View(page))
      ensures pmm.Used() == if old(tables[virtual / FRAME_SIZE / PAGE_ENTRIES]) == 0 then old(pmm.Used()) + {old(NextFrame())}
                            else old(pmm.Used())
      ensures forall i :: 0 <= i < PAGE_ENTRIES && i != virtual / FRAME_SIZE / PAGE_ENTRIES ==> tables[i] == old(tables[i])
      ensures tables[virtual / FRAME_SIZE / PAGE_ENTRIES] ==
        var t := old(tables[virtual / FRAME_SIZE / PAGE_ENTRIES]); if t == 0 then old(NextFrame()) * FRAME_SIZE else t
      ensures Stored(tables[virtual / 4096 / 1024], directory[virtual / 4096 / 1024], virtual / 4096 % 1024, physical / 4096 * 4096 + 3)
    {
      var dirIndex := virtual / FRAME_SIZE / PAGE_ENTRIES;
      var tableIndex := virtual / FRAME_SIZE % PAGE_ENTRIES;
      if tables[dirIndex] == 0 {
        NewTable(dirIndex);
      }
      WriteOne(dirIndex, tableIndex, physical);
      EntryOfTable(directory[..], tables[..], pmm.Used(), dirIndex);
    }

    /** The words of one mapping: the directory entry is the address of the table
        with its bits 0 and 1 set and bits 2 to 11 clear, and the table entry is w. */
    ghost predicate Stored(table: Word, entry: Word, index: nat, w: int)
      reads this, ram
    {
      table % 4096 == 0 && entry == table + 3 && table / 4 + index < ram.Length && ram[table / 4 + index] == w
    }

    method NewTable(i: nat)
      requires Valid() && i < PAGE_ENTRIES && tables[i] == 0
      requires NextFrame() < Limit(pmm.totalFrames) && NextFrame() < 1024
      modifies directory, tables, ram, pmm.bitmap
      ensures Valid() && tables[..] == old(tables[..])[i := NextAddress(old(NextFrame()))]
      ensures pmm.Used() == old(pmm.Used()) + {old(NextFrame())}
      ensures forall page: nat :: page < PAGE_ENTRIES * PAGE_ENTRIES ==>
        View(page) == if old(TableAtNull(directory[..], tables[..], i)) && page / PAGE_ENTRIES == i then NotPresent
                      else old(View(page))
    {
      ghost var dir, tabs, words, used := directory[..], tables[..], ram[..], pmm.Used();
      var t := pmm.AllocFrame();
      ClearTable(t);
      directory[i] := EntryFor(t);
      tables[i] := t;
      assert directory[..] == dir[i := EntryFor(t)] && tables[..] == tabs[i := t];
      NewTableAgrees(dir, tabs, used, i, t);
      forall page: nat | page < PAGE_ENTRIES * PAGE_ENTRIES
        ensures Translate(dir[i := EntryFor(t)], ram[..], page)
          == if TableAtNull(dir, tabs, i) && page / PAGE_ENTRIES == i then NotPresent else Translate(dir, words, page)
      {
        NewTableKeepsTranslations(dir, tabs, used, words, ram[..], i, t, page);
      }
    }

    method WriteOne(dirIndex: nat, tableIndex: nat, physical: Word)
      requires Valid() && dirIndex < PAGE_ENTRIES && tableIndex < PAGE_ENTRIES && tables[dirIndex] != 0
      modifies ram
      ensures Valid()
      ensures forall page: nat :: page < PAGE_ENTRIES * PAGE_ENTRIES ==>
        View(page) == if page == dirIndex * PAGE_ENTRIES + tableIndex then Mapped(physical / FRAME_SIZE, true) else old(View(page))
      ensures Slot(tables[dirIndex], tableIndex) < ram.Length
      ensures ram[..] == old(ram[..])[Slot(tables[dirIndex], tableIndex) := physical / 4096 * 4096 + 3]
    {
      ghost var dir, tabs, words, used := directory[..], tables[..], ram[..], pmm.Used();
      ghost var p := dirIndex * PAGE_ENTRIES + tableIndex;
      var t := tables[dirIndex];
      WriteEntry(dir, tabs, used, words, p, physical, p);
      ram[Slot(t, tableIndex)] := EntryFor(physical);
      assert ram[..] == EntryWritten(words, t, tableIndex, EntryFor(physical));
      forall page: nat | page < PAGE_ENTRIES * PAGE_ENTRIES
        ensures View(page) == if page == p then Mapped(physical / FRAME_SIZE, true) else Translate(dir, words, page)
      {
        WriteEntry(dir, tabs, used, words, p, physical, page);
      }
    }

    /** page_fault_handler. Bit 0 of the error code is clear for an absent page
        and bit 2 is set for a user access (Intel SDM Volume 3A, section 4.7). */
    method PageFault(faultAddress: Word, error: Word) returns (outcome: FaultOutcome)
      requires Valid()
      requires Recoverable(faultAddress, error) && tables[1] == 0 && NextFrame() < Limit(pmm.totalFrames) ==>
        FrameAfter() < Limit(pmm.totalFrames) && FrameAfter() < 1024
      modifies directory, tables, ram, pmm.bitmap
      ensures Valid()
      ensures outcome == if error % 2 == 0 && error / 4 % 2 == 0 && 0x40_0000 <= faultAddress < 0x80_0000
                         then if old(NextFrame()) == Limit(pmm.totalFrames) then OutOfMemory else Recovered
                         else Fatal
      ensures outcome == Recovered ==>
        Stored(tables[1], directory[1], faultAddress / 4096 % 1024, old(NextFrame()) * 4096 + 3)
      ensures forall page: nat :: page < PAGE_ENTRIES * PAGE_ENTRIES ==>
        View(page) == if outcome == Recovered && page == faultAddress / FRAME_SIZE then Mapped(old(NextFrame()), true)
                      else old(View(page))
      ensures outcome != Recovered ==> pmm.Used() == old(pmm.Used()) && tables[1] == old(tables[1])
      ensures outcome == Recovered ==>
        && pmm.Used() == old(pmm.Used()) + {old(NextFrame())} + (if old(tables[1]) == 0 then {old(FrameAfter())} else {})
        && tables[1] == if old(tables[1]) == 0 then old(FrameAfter()) * FRAME_SIZE else old(tables[1])
    {
      var aligned := faultAddress / FRAME_SIZE * FRAME_SIZE;
      var notPresent := error % 2 == 0;
      var user := error / 4 % 2 == 1;
      if notPresent && !user {
        if aligned >= KERNEL_HEAP_START && aligned < KERNEL_HEAP_END {
          HeapPageOf(faultAddress);
          var frame := pmm.AllocFrame();
          if frame == 0 { return OutOfMemory; }
          MultipleOfFrame(frame / FRAME_SIZE);
          MapPage(aligned, frame);
          return Recovered;
        }
      }
      return Fatal;
    }

    /** The frame after the next one. */
    ghost function FrameAfter(): nat
      reads pmm, pmm.bitmap
    {
      LowestFree(pmm.Used() + {NextFrame()}, 0, Limit(pmm.totalFrames))
    }

    /** The state of the demand-paging machine. */
    ghost function Machine(): Vm
      requires Shaped()
      reads this, directory, tables, ram, pmm, pmm.bitmap
    {
      Vm(pmm.Used(), Limit(pmm.totalFrames), tables[1] / FRAME_SIZE,
         BackedPages(directory[..], ram[..]), false)
    }

    /** The fault of a kernel access to an absent heap page, in terms of the tables. */
    method RaiseFault(address: Word, write: bool) returns (outcome: FaultOutcome)
      requires Valid() && KERNEL_HEAP_START <= address < KERNEL_HEAP_END
      requires tables[1] == 0 && NextFrame() < Limit(pmm.totalFrames) ==>
        FrameAfter() < Limit(pmm.totalFrames) && FrameAfter() < 1024
      modifies directory, tables, ram, pmm.bitmap
      ensures Valid()
      ensures outcome == if old(NextFrame()) == Limit(pmm.totalFrames) then OutOfMemory else Recovered
      ensures OnlyPage(old(directory[..]), old(ram[..]), directory[..], ram[..], address / FRAME_SIZE,
                       outcome == Recovered, old(NextFrame()))
      ensures outcome != Recovered ==> pmm.Used() == old(pmm.Used()) && tables[1] == old(tables[1])
      ensures outcome == Recovered ==>
        && pmm.Used() == old(pmm.Used()) + {old(NextFrame())} + (if old(tables[1]) == 0 then {old(FrameAfter())} else {})
        && tables[1] == if old(tables[1]) == 0 then old(FrameAfter()) * FRAME_SIZE else old(tables[1])
    {
      ghost var dir, words, f := directory[..], ram[..], NextFrame();
      outcome := PageFault(address, if write then 2 else 0);
      forall p: nat | p < PAGE_ENTRIES * PAGE_ENTRIES
        ensures Translate(directory[..], ram[..], p)
          == if outcome == Recovered && p == address / FRAME_SIZE then Mapped(f, true) else Translate(dir, words, p)
      {
        assert old(View(p)) == Translate(dir, words, p);
        assert View(p) == Translate(directory[..], ram[..], p);
      }
    }

    /** A kernel access to a heap address: the processor walks the tables and
        raises a page fault when the page is absent. */
    method Access(address: Word, write: bool) returns (outcome: FaultOutcome)
      requires Valid() && KERNEL_HEAP_START <= address < KERNEL_HEAP_END
      requires TableAvailable(Machine(), address / FRAME_SIZE)
      modifies directory, tables, ram, pmm.bitmap
      ensures Valid() && outcome != Fatal
      ensures outcome == Recovered <==> View(address / FRAME_SIZE).Mapped?
      ensures Machine().(halted := outcome == OutOfMemory) == Touch(old(Machine()), address / FRAME_SIZE)
    {
      ghost var before, dir, words := Machine(), directory[..], ram[..];
      var page := address / FRAME_SIZE;
      if Translate(directory[..], ram[..], page).Mapped? { return Recovered; }
      outcome := RaiseFault(address, write);
      BackedAfter(dir, words, directory[..], ram[..], page, outcome == Recovered, DataFrame(before));
    }
  }

  /** Between two states of the tables, page `page` became mapped to frame f if
      `mapped`, and no other translation changed. */
  ghost predicate OnlyPage(dir: seq<Word>, ram: seq<Word>, dir': seq<Word>, ram': seq<Word>, page: nat, mapped: bool, f: nat)
    requires |dir| == |dir'| == PAGE_ENTRIES
  {
    forall p: nat :: p < PAGE_ENTRIES * PAGE_ENTRIES ==>
      Translate(dir', ram', p) == if mapped && p == page then Mapped(f, true) else Translate(dir, ram, p)
  }

  /** The heap pages that translate, with their frames. */
  ghost function BackedPages(dir: seq<Word>, ram: seq<Word>): map<nat, nat>
    requires |dir| == PAGE_ENTRIES
  {
    map p: nat | FIRST_PAGE <= p < LAST_PAGE && Translate(dir, ram, p).Mapped? :: Translate(dir, ram, p).frame
  }

  lemma BackedAfter(dir: seq<Word>, ram: seq<Word>, dir': seq<Word>, ram': seq<Word>, page: nat, added: bool, f: nat)
    requires |dir| == |dir'| == PAGE_ENTRIES && FIRST_PAGE <= page < LAST_PAGE
    requires OnlyPage(dir, ram, dir', ram', page, added, f)
    ensures Translate(dir', ram', page) == if added then Mapped(f, true) else Translate(dir, ram, page)
    ensures BackedPages(dir', ram') == if added then BackedPages(dir, ram)[page := f] else BackedPages(dir, ram)
  {
  }

  predicate Recoverable(faultAddress: Word, error: Word) {
    error % 2 == 0 && error / 4 % 2 == 0 && KERNEL_HEAP_START <= faultAddress < KERNEL_HEAP_END
  }

  /** The page of a heap address, and its place in the directory. */
  lemma HeapPageOf(address: Word)
    requires KERNEL_HEAP_START <= address / FRAME_SIZE * FRAME_SIZE < KERNEL_HEAP_END
    ensures address / FRAME_SIZE * FRAME_SIZE / FRAME_SIZE == address / FRAME_SIZE
    ensures address / FRAME_SIZE / PAGE_ENTRIES == 1
  {
    MultipleOfFrame(address / FRAME_SIZE);
  }

  /** The first table agrees with the directory, at NULL as well. */
  lemma FirstAgrees(dir: seq<Word>, tables: seq<Word>, used: set<nat>, first: Word)
    requires |dir| == |tables| == PAGE_ENTRIES && first % FRAME_SIZE == 0 && first / FRAME_SIZE < 1024
    requires dir[0] == EntryFor(first) && tables[0] == first && (first != 0 ==> first / FRAME_SIZE in used)
    requires forall i :: 1 <= i < PAGE_ENTRIES ==> dir[i] == 0 && tables[i] == 0
    ensures Agree(dir, tables, used)
  {
  }

  function NextAddress(f: nat): Word
    requires f < 1024
  {
    f * FRAME_SIZE
  }
}

/** The two-level page walk of 32-bit paging (Intel SDM Volume 3A, section 4.3)
    as a function of the directory and of the memory that holds the tables. */
module Paging {
  import opened Words
  import opened Frames

  const PAGE_ENTRIES := 1024
  const PRESENT := 1
  const WRITABLE := 2

  /** Words of the identity-mapped memory that page tables live in. */
  const LOW_WORDS := 0x10_0000

  datatype Translation = NotPresent | Mapped(frame: nat, writable: bool)

  /** The entry for an address: its frame bits, present and writable. */
  function EntryFor(address: Word): (e: Word)
    ensures e == address / 4096 * 4096 + 3
    ensures e / FRAME_SIZE == address / FRAME_SIZE && e % 2 == 1 && e / 2 % 2 == 1
  {
    var f := address / FRAME_SIZE;
    var e := f * FRAME_SIZE + PRESENT + WRITABLE;
    assert e < TWO32 && e / FRAME_SIZE == f by { assert 0 <= e - f * FRAME_SIZE < FRAME_SIZE; }
    assert e == 2 * (2048 * f + 1) + 1;
    e
  }

  /** Division, remainder and addition say what the masks and shifts of the code
      compute. */
  lemma MasksAreArithmetic(x: bv32)
    ensures x & 0xFFFF_F000 == x / 4096 * 4096
    ensures (x & 0xFFFF_F000) | 1 | 2 == x / 4096 * 4096 + 3
    ensures x >> 22 == x / 4096 / 1024
    ensures (x >> 12) & 0x3FF == x / 4096 % 1024
  {
  }

  /** The entry for the address of a table, which has no low bits. */
  lemma TableEntryBits(x: bv32)
    requires x & 0xFFF == 0
    ensures x | 1 | 2 == x + 3
  {
  }

  /** The first two tests of the page-fault handler. */
  lemma ErrorBits(x: bv32)
    ensures x & 1 == x % 2 && (x & 4 != 0 <==> x / 4 % 2 == 1)
  {
  }

  /** The directory entry of a table that exists. */
  lemma EntryOfTable(dir: seq<Word>, tables: seq<Word>, used: set<nat>, i: nat)
    requires Agree(dir, tables, used) && i < PAGE_ENTRIES && tables[i] != 0
    ensures dir[i] == tables[i] + 3 && tables[i] % 4096 == 0 && tables[i] / 4 + 1024 <= LOW_WORDS
  {
  }

  /** Index of the word at a table entry. */
  function Slot(table: Word, index: nat): int {
    table / 4 + index
  }

  function Translate(dir: seq<Word>, ram: seq<Word>, page: nat): Translation
    requires |dir| == PAGE_ENTRIES && page < PAGE_ENTRIES * PAGE_ENTRIES
  {
    var pde := dir[page / PAGE_ENTRIES];
    var at := Slot(pde / FRAME_SIZE * FRAME_SIZE, page % PAGE_ENTRIES);
    if pde % 2 == 0 || at >= |ram| || ram[at] % 2 == 0 then NotPresent
    else Mapped(ram[at] / FRAME_SIZE, pde / 2 % 2 == 1 && ram[at] / 2 % 2 == 1)
  }

  /** Table address t is a whole frame inside low memory. */
  predicate TableAddress(t: Word) {
    t % FRAME_SIZE == 0 && t / FRAME_SIZE < 1024
  }

  /** A table stands at address 0, which the array of table addresses cannot tell
      from no table. Only the first table can. */
  predicate TableAtNull(dir: seq<Word>, tables: seq<Word>, i: nat)
    requires i < |dir| == |tables|
  {
    tables[i] == 0 && dir[i] != 0
  }

  /** The directory and the shadow array of table addresses agree: no entry, or
      a present writable entry for a table in a used low frame of its own; and
      the first table may stand at address 0. */
  ghost predicate Agree(dir: seq<Word>, tables: seq<Word>, used: set<nat>) {
    && |dir| == |tables| == PAGE_ENTRIES
    && (forall i :: 1 <= i < PAGE_ENTRIES && tables[i] == 0 ==> dir[i] == 0)
    && (tables[0] == 0 ==> dir[0] == 0 || dir[0] == EntryFor(0))
    && (forall i :: 0 <= i < PAGE_ENTRIES && tables[i] != 0 ==>
         dir[i] == EntryFor(tables[i]) && TableAddress(tables[i]) && tables[i] / FRAME_SIZE in used)
    && (forall i, j :: 0 <= i < j < PAGE_ENTRIES && tables[i] != 0 ==> tables[i] != tables[j])
  }

  /** Memory after entry `index` of the table at `table` is written. */
  function EntryWritten(ram: seq<Word>, table: Word, index: nat, entry: Word): (r: seq<Word>)
    requires 0 <= Slot(table, index) < |ram|
  {
    ram[Slot(table, index) := entry]
  }

  /** Slots of different entries of different tables do not coincide. */
  lemma SlotsDiffer(t: Word, i: nat, u: Word, j: nat)
    requires TableAddress(t) && TableAddress(u) && i < PAGE_ENTRIES && j < PAGE_ENTRIES && (t != u || i != j)
    ensures Slot(t, i) != Slot(u, j) && Slot(t, i) < LOW_WORDS
  {
  }

  lemma SamePage(page: nat, other: nat)
    ensures page == other <==> page / PAGE_ENTRIES == other / PAGE_ENTRIES && page % PAGE_ENTRIES == other % PAGE_ENTRIES
  {
  }

  /** The walk finds the table that its directory entry was made for. */
  lemma EntryLeadsBack(t: Word)
    requires TableAddress(t)
    ensures EntryFor(t) / FRAME_SIZE * FRAME_SIZE == t
  {
  }

  /** Writing an entry of an existing table changes the translation of its own
      page and of no other. */
  lemma WriteEntry(dir: seq<Word>, tables: seq<Word>, used: set<nat>, ram: seq<Word>, page: nat, address: Word, other: nat)
    requires Agree(dir, tables, used) && |ram| == LOW_WORDS && page < PAGE_ENTRIES * PAGE_ENTRIES
    requires tables[page / PAGE_ENTRIES] != 0 && other < PAGE_ENTRIES * PAGE_ENTRIES
    ensures var t := tables[page / PAGE_ENTRIES];
      Slot(t, page % PAGE_ENTRIES) < |ram| &&
      Translate(dir, EntryWritten(ram, t, page % PAGE_ENTRIES, EntryFor(address)), other)
        == if other == page then Mapped(address / FRAME_SIZE, true) else Translate(dir, ram, other)
  {
    var i, j := page / PAGE_ENTRIES, other / PAGE_ENTRIES;
    SamePage(page, other);
    EntryLeadsBack(tables[i]);
    if tables[j] != 0 || dir[j] != 0 { EntryLeadsBack(tables[j]); }
    SlotsDiffer(tables[i], page % PAGE_ENTRIES, tables[i], (page % PAGE_ENTRIES + 1) % PAGE_ENTRIES);
    if (tables[j] != 0 || dir[j] != 0) && other != page {
      SlotsDiffer(tables[i], page % PAGE_ENTRIES, tables[j], other % PAGE_ENTRIES);
    }
  }

  /** The table at t holds only absent entries, and other tables are as before. */
  ghost predicate ClearedTable(ram: seq<Word>, ram': seq<Word>, t: Word) {
    && |ram| == |ram'| == LOW_WORDS
    && forall a :: 0 <= a < LOW_WORDS ==> ram'[a] == if Slot(t, 0) <= a < Slot(t, PAGE_ENTRIES) then 0 else ram[a]
  }

  lemma NewTableAgrees(dir: seq<Word>, tables: seq<Word>, used: set<nat>, i: nat, t: Word)
    requires Agree(dir, tables, used) && i < PAGE_ENTRIES && tables[i] == 0
    requires TableAddress(t) && t != 0 && t / FRAME_SIZE !in used
    ensures Agree(dir[i := EntryFor(t)], tables[i := t], used + {t / FRAME_SIZE})
  {
  }

  /** Installing a cleared table in a free frame changes no translation, unless
      it replaces a table at address 0, whose pages then become absent. */
  lemma NewTableKeepsTranslations(dir: seq<Word>, tables: seq<Word>, used: set<nat>, ram: seq<Word>, ram': seq<Word>,
                                  i: nat, t: Word, page: nat)
    requires Agree(dir, tables, used) && i < PAGE_ENTRIES && tables[i] == 0
    requires TableAddress(t) && t != 0 && t / FRAME_SIZE !in used && ClearedTable(ram, ram', t)
    requires page < PAGE_ENTRIES * PAGE_ENTRIES
    ensures Translate(dir[i := EntryFor(t)], ram', page) ==
      if TableAtNull(dir, tables, i) && page / PAGE_ENTRIES == i then NotPresent else Translate(dir, ram, page)
  {
    var j := page / PAGE_ENTRIES;
    if j == i {
      TableHolds(t, page % PAGE_ENTRIES);
    } else if dir[j] != 0 {
      assert tables[j] != t;
      TablesDoNotOverlap(tables[j], t, page % PAGE_ENTRIES);
    }
  }

  lemma TableHolds(t: Word, k: nat)
    requires TableAddress(t) && k < PAGE_ENTRIES
    ensures Slot(t, 0) <= Slot(EntryFor(t) / FRAME_SIZE * FRAME_SIZE, k) < Slot(t, PAGE_ENTRIES) <= LOW_WORDS
  {
  }

  lemma TablesDoNotOverlap(u: Word, t: Word, k: nat)
    requires TableAddress(u) && TableAddress(t) && u != t && k < PAGE_ENTRIES
    ensures !(Slot(t, 0) <= Slot(u, k) < Slot(t, PAGE_ENTRIES))
  {
  }

  /** The words of the first table: nothing for page 0, and for each page behind
      it the address of the frame of the same number, with bits 0 and 1 set. */
  ghost predicate IdentityTable(ram: seq<Word>, first: Word) {
    && |ram| == LOW_WORDS && first % 4096 == 0 && first / 4096 < 1024
    && forall k: nat :: k < 1024 ==> IdentityEntry(ram, first, k)
  }

  predicate IdentityEntry(ram: seq<Word>, first: Word, k: nat) {
    first / 4 + k < |ram| && ram[first / 4 + k] == if k == 0 then 0 else k * 4096 + 3
  }

  lemma EntryOfPage(k: nat)
    requires k < 1024
    ensures EntryFor(k * FRAME_SIZE) == k * 4096 + 3
  {
    MultipleOfFrame(k);
  }

  lemma EntryDecodes(k: nat, w: nat)
    requires w == 4096 * k + 3
    ensures w / 4096 == k && w % 2 == 1 && w / 2 % 2 == 1
  {
    assert w == 2 * (2048 * k + 1) + 1;
  }

  lemma IdentityWord(ram: seq<Word>, first: Word, k: nat)
    requires IdentityTable(ram, first) && k < PAGE_ENTRIES
    ensures Slot(EntryFor(first) / FRAME_SIZE * FRAME_SIZE, k) < |ram|
    ensures var w := ram[Slot(EntryFor(first) / FRAME_SIZE * FRAME_SIZE, k)];
      if k == 0 then w == 0 else w / FRAME_SIZE == k && w % 2 == 1 && w / 2 % 2 == 1
  {
    EntryLeadsBack(first);
    assert IdentityEntry(ram, first, k);
    if k > 0 { EntryDecodes(k, ram[first / 4 + k]); }
  }

  /** With one identity table installed at the first entry, exactly the pages
      1 to 1023 translate, to themselves. */
  lemma FirstTranslates(dir: seq<Word>, ram: seq<Word>, first: Word, page: nat)
    requires |dir| == PAGE_ENTRIES && IdentityTable(ram, first) && page < PAGE_ENTRIES * PAGE_ENTRIES
    requires dir[0] == EntryFor(first) && forall i :: 1 <= i < PAGE_ENTRIES ==> dir[i] == 0
    ensures Translate(dir, ram, page) == if 1 <= page < PAGE_ENTRIES then Mapped(page, true) else NotPresent
  {
    if page < PAGE_ENTRIES { IdentityWord(ram, first, page); }
  }
}

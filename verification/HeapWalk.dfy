/** Following `next` links through memory, and why a tortoise and a hare meet
    exactly on cyclic chains. */
module HeapWalk {
  import opened Words
  import opened HeapSpec
  import opened HeapMemory
  import opened HeapFree

  /** A set of readable headers that contains the chain from head. */
  ghost predicate Closed(m: seq<Word>, head: int, nodes: set<int>) {
    && |m| == RAM && (head == 0 || head in nodes)
    && forall a :: a in nodes ==> 0 < a && a % 4 == 0 && a + HEADER <= RAM && (m[a + NEXT_AT] == 0 || m[a + NEXT_AT] in nodes)
  }

  ghost function Succ(m: seq<Word>, a: int): int {
    if 0 < a && a + HEADER <= |m| then m[a + NEXT_AT] else 0
  }

  /** The block reached after k links; 0 once the chain has ended. */
  ghost function Walk(m: seq<Word>, head: int, k: nat): int {
    if k == 0 then head else Succ(m, Walk(m, head, k - 1))
  }

  ghost predicate Cyclic(m: seq<Word>, head: int) {
    forall k: nat :: Walk(m, head, k) != 0
  }

  lemma {:induction false} WalkStaysInside(m: seq<Word>, head: int, nodes: set<int>, k: nat)
    requires Closed(m, head, nodes)
    ensures Walk(m, head, k) == 0 || Walk(m, head, k) in nodes
  {
    if k > 0 { WalkStaysInside(m, head, nodes, k - 1); }
  }

  lemma {:induction false} EndIsFinal(m: seq<Word>, head: int, k: nat, t: nat)
    requires Walk(m, head, k) == 0
    ensures Walk(m, head, k + t) == 0
  {
    if t > 0 { EndIsFinal(m, head, k, t - 1); }
  }

  lemma {:induction false} SameForward(m: seq<Word>, head: int, i: nat, j: nat, t: nat)
    requires Walk(m, head, i) == Walk(m, head, j)
    ensures Walk(m, head, i + t) == Walk(m, head, j + t)
  {
    if t > 0 { SameForward(m, head, i, j, t - 1); }
  }

  /** A repetition at distance p repeats for every multiple of p. */
  lemma {:induction false} Periodic(m: seq<Word>, head: int, i: nat, p: nat, k: nat, q: nat)
    requires Walk(m, head, i) == Walk(m, head, i + p) && i <= k
    ensures Walk(m, head, k) == Walk(m, head, k + q * p)
  {
    if q > 0 {
      Periodic(m, head, i, p, k, q - 1);
      SameForward(m, head, i, i + p, k - i + (q - 1) * p);
      assert k + q * p == i + p + (k - i + (q - 1) * p);
    } else {
      assert q * p == 0;
    }
  }

  /** A repeated non-null block makes the chain endless. */
  lemma RepeatIsCyclic(m: seq<Word>, head: int, i: nat, p: nat)
    requires 0 < p && Walk(m, head, i) == Walk(m, head, i + p) && Walk(m, head, i) != 0
    ensures Cyclic(m, head)
  {
    forall k: nat ensures Walk(m, head, k) != 0 {
      if Walk(m, head, k) == 0 {
        Periodic(m, head, i, p, i, k);
        assert k <= i + k * p;
        EndIsFinal(m, head, k, i + k * p - k);
        assert false;
      }
    }
  }

  ghost function Visited(m: seq<Word>, head: int, k: nat): set<int> {
    if k == 0 then {} else Visited(m, head, k - 1) + {Walk(m, head, k - 1)}
  }

  lemma {:induction false} VisitedIs(m: seq<Word>, head: int, k: nat, a: int) returns (i: nat)
    requires a in Visited(m, head, k)
    ensures i < k && Walk(m, head, i) == a
  {
    i := k - 1;
    if a != Walk(m, head, i) { i := VisitedIs(m, head, k - 1, a); }
  }

  lemma {:induction false} VisitedInside(m: seq<Word>, head: int, nodes: set<int>, k: nat)
    requires Closed(m, head, nodes) && (k > 0 ==> Walk(m, head, k - 1) != 0)
    ensures Visited(m, head, k) <= nodes
  {
    if k > 0 {
      WalkStaysInside(m, head, nodes, k - 1);
      assert k > 1 ==> Walk(m, head, k - 2) != 0;
      VisitedInside(m, head, nodes, k - 1);
    }
  }

  /** Fewer blocks than steps: two steps reached the same block. */
  lemma {:induction false} SomeRepeat(m: seq<Word>, head: int, k: nat) returns (i: nat, j: nat)
    requires |Visited(m, head, k)| < k
    ensures i < j < k && Walk(m, head, i) == Walk(m, head, j)
  {
    var last := Walk(m, head, k - 1);
    if last in Visited(m, head, k - 1) {
      j := k - 1;
      i := VisitedIs(m, head, k - 1, last);
    } else {
      i, j := SomeRepeat(m, head, k - 1);
    }
  }

  lemma SubsetSize(a: set<int>, b: set<int>)
    requires a <= b
    ensures |a| <= |b|
  {
    assert b == a + (b - a);
  }

  /** A chain longer than its node set repeats a block. */
  lemma Pigeonhole(m: seq<Word>, head: int, nodes: set<int>) returns (i: nat, p: nat)
    requires Closed(m, head, nodes) && Walk(m, head, |nodes|) != 0
    ensures 0 < p && i + p <= |nodes| && Walk(m, head, i) == Walk(m, head, i + p) && Walk(m, head, i) != 0
  {
    var n := |nodes|;
    VisitedInside(m, head, nodes, n + 1);
    SubsetSize(Visited(m, head, n + 1), nodes);
    var b;
    i, b := SomeRepeat(m, head, n + 1);
    p := b - i;
    if Walk(m, head, i) == 0 {
      EndIsFinal(m, head, i, n - i);
      assert false;
    }
  }

  /** On a chain longer than its node set the hare meets the tortoise within one
      lap: some positive k has the k-th and the 2k-th block equal. */
  lemma TheyMeet(m: seq<Word>, head: int, nodes: set<int>) returns (k: nat)
    requires Closed(m, head, nodes) && Walk(m, head, |nodes|) != 0
    ensures 1 <= k <= |nodes| && Walk(m, head, k) == Walk(m, head, 2 * k)
  {
    var i, p := Pigeonhole(m, head, nodes);
    var q := i / p + 1;
    k := q * p;
    assert i < k <= i + p by { assert i == p * (i / p) + i % p; assert q * p == p * (i / p) + p; }
    Periodic(m, head, i, p, k, q);
  }

  // ----- the facts the two loops of heap_validate need

  lemma SlowIsInside(m: seq<Word>, head: int, nodes: set<int>, k: nat)
    requires Closed(m, head, nodes) && Walk(m, head, 2 * k) != 0
    ensures Walk(m, head, k) in nodes
  {
    WalkStaysInside(m, head, nodes, k);
    if Walk(m, head, k) == 0 { EndIsFinal(m, head, k, k); }
  }

  lemma TwoSteps(m: seq<Word>, head: int, k: nat)
    ensures Walk(m, head, 2 * (k + 1)) == Succ(m, Succ(m, Walk(m, head, 2 * k)))
    ensures Walk(m, head, k + 1) == Succ(m, Walk(m, head, k))
  {
    assert 2 * (k + 1) == 2 * k + 1 + 1;
  }

  lemma MeetingIsCyclic(m: seq<Word>, head: int, k: nat)
    requires 1 <= k && Walk(m, head, k) == Walk(m, head, 2 * k)
    requires Walk(m, head, 2 * k - 1) != 0
    ensures Cyclic(m, head)
  {
    if Walk(m, head, k) == 0 {
      EndIsFinal(m, head, k, k - 1);
      assert false;
    }
    RepeatIsCyclic(m, head, k, k);
  }

  lemma EndedWalk(m: seq<Word>, head: int, k: nat)
    requires Walk(m, head, k) == 0 || Succ(m, Walk(m, head, k)) == 0
    ensures !Cyclic(m, head)
  {
    assert Walk(m, head, k + 1) == Succ(m, Walk(m, head, k));
  }

  /** Without a meeting the hare has not gone once around the node set. */
  lemma NotYetAround(m: seq<Word>, head: int, nodes: set<int>, k: nat)
    requires Closed(m, head, nodes) && Walk(m, head, 2 * k) != 0
    requires forall j :: 1 <= j <= k ==> Walk(m, head, j) != Walk(m, head, 2 * j)
    ensures k < |nodes|
  {
    if |nodes| <= k {
      if Walk(m, head, |nodes|) == 0 { EndIsFinal(m, head, |nodes|, 2 * k - |nodes|); }
      var j := TheyMeet(m, head, nodes);
      assert false;
    }
  }

  // ----- the checks of heap_validate

  datatype Report = CycleFound | MagicCorrupted | LinkCorrupted | OutsideRange | ExceedsHeap | StructureValid

  ghost function BackLink(m: seq<Word>, a: int): int {
    if 0 < a && a + HEADER <= |m| then m[a + PREV_AT] else 0
  }

  /** What heap_validate finds wrong with the block at a, in its order. */
  ghost function Examine(m: seq<Word>, start: int, end: int, a: int): Report
    requires 0 < a && a + HEADER <= |m|
  {
    var next := m[a + NEXT_AT];
    if m[a] != MAGIC then MagicCorrupted
    else if next != 0 && BackLink(m, next) != a then LinkCorrupted
    else if a < start || a >= end then OutsideRange
    else if W32(a + HEADER + m[a + SIZE_AT]) > end then ExceedsHeap
    else StructureValid
  }

  /** Each report on the words of memory: the header at a has its magic word at a,
      its size at a + 4 and its next link at a + 12; the block behind has its
      previous link 16 bytes in; sums are those that 32 bits hold. */
  lemma ExamineMeans(m: seq<Word>, start: int, end: int, a: int)
    requires 0 < a && a + 20 <= |m| && (m[a + 12] == 0 || m[a + 12] + 20 <= |m|)
    ensures var r, next := Examine(m, start, end, a), m[a + 12];
      var marked := m[a] == 0xDEAD_BEEF;
      var linked := next == 0 || m[next + 16] == a;
      var inside := start <= a < end;
      var fits := (a + 20 + m[a + 4]) % 0x1_0000_0000 <= end;
      && (r == MagicCorrupted <==> !marked)
      && (r == LinkCorrupted <==> marked && !linked)
      && (r == OutsideRange <==> marked && linked && !inside)
      && (r == ExceedsHeap <==> marked && linked && inside && !fits)
      && (r == StructureValid <==> marked && linked && inside && fits)
      && r != CycleFound
  {
  }

  /** A block in order, on the words of memory: its magic word, a block behind it
      that links back, its header inside the heap and its payload up to the top. */
  ghost predicate Passes(m: seq<Word>, start: int, end: int, a: int) {
    && 0 < a && a + 20 <= |m|
    && m[a] == 0xDEAD_BEEF
    && (m[a + 12] == 0 || (m[a + 12] + 20 <= |m| && m[m[a + 12] + 16] == a))
    && start <= a < end
    && (a + 20 + m[a + 4]) % 0x1_0000_0000 <= end
  }

  /** The k-th block of the chain, if the chain gets that far, passes. */
  ghost predicate PassesAt(m: seq<Word>, start: int, end: int, head: int, k: nat) {
    Walk(m, head, k) == 0 || Passes(m, start, end, Walk(m, head, k))
  }

  /** The first k blocks pass, and then the chain ends or shows fault r. */
  ghost predicate FaultAt(m: seq<Word>, start: int, end: int, head: int, k: nat, r: Report) {
    && (forall j: nat :: j < k ==> Passes(m, start, end, Walk(m, head, j)))
    && var a := Walk(m, head, k);
       if r == StructureValid then a == 0
       else 0 < a && a + HEADER <= |m| && Examine(m, start, end, a) == r
  }

  /** "Valid" means exactly that every block of the chain passes every check. */
  lemma FaultMeaning(m: seq<Word>, start: int, end: int, head: int, k: nat, r: Report)
    requires FaultAt(m, start, end, head, k, r)
    ensures r == StructureValid <==> forall j: nat :: PassesAt(m, start, end, head, j)
  {
    if r == StructureValid {
      forall j: nat ensures PassesAt(m, start, end, head, j) {
        if k <= j { EndIsFinal(m, head, k, j - k); }
      }
    } else {
      assert !PassesAt(m, start, end, head, k);
    }
  }

  /** On a represented well-formed heap the walk is the block list. */
  lemma {:induction false} WalkOfList(m: seq<Word>, bs: seq<Block>, k: nat)
    requires Headers(m, bs) && Apart(bs) && k <= |bs|
    ensures Walk(m, AddrOf(bs, 0), k) == AddrOf(bs, k)
  {
    if k > 0 {
      WalkOfList(m, bs, k - 1);
      assert HeaderAt(m, bs, k - 1);
    }
  }

  lemma ListedBlockPasses(m: seq<Word>, h: Heap, k: nat)
    requires WellFormed(h) && Headers(m, h.blocks) && |m| == RAM && k < |h.blocks|
    ensures Passes(m, HEAP_START, h.end, h.blocks[k].addr)
  {
    assert HeaderAt(m, h.blocks, k) && BlockOk(h.blocks[k], h.end);
    if k + 1 < |h.blocks| { assert HeaderAt(m, h.blocks, k + 1) && BlockOk(h.blocks[k + 1], h.end); }
  }

  /** heap_validate can only report a represented well-formed heap as valid. */
  lemma WellFormedValidates(m: seq<Word>, h: Heap)
    requires WellFormed(h) && Headers(m, h.blocks) && |m| == RAM
    ensures var head := AddrOf(h.blocks, 0);
      !Cyclic(m, head) && forall j: nat :: PassesAt(m, HEAP_START, h.end, head, j)
  {
    var bs, head := h.blocks, AddrOf(h.blocks, 0);
    SoundIsApart(h);
    WalkOfList(m, bs, |bs|);
    forall j: nat ensures PassesAt(m, HEAP_START, h.end, head, j) {
      if |bs| <= j {
        EndIsFinal(m, head, |bs|, j - |bs|);
      } else {
        WalkOfList(m, bs, j);
        ListedBlockPasses(m, h, j);
      }
    }
  }

  /** The headers of a represented well-formed heap are a node set as the
      validator needs it. */
  lemma ListedHeadersAreClosed(m: seq<Word>, h: Heap)
    requires WellFormed(h) && Headers(m, h.blocks) && |m| == RAM
    ensures Closed(m, AddrOf(h.blocks, 0), Addrs(h.blocks))
  {
    var bs := h.blocks;
    forall a | a in Addrs(bs)
      ensures 0 < a && a % 4 == 0 && a + HEADER <= RAM && (m[a + NEXT_AT] == 0 || m[a + NEXT_AT] in Addrs(bs))
    {
      var k :| 0 <= k < |bs| && bs[k].addr == a;
      assert HeaderAt(m, bs, k) && BlockOk(bs[k], h.end);
      if k + 1 < |bs| { assert bs[k + 1].addr in Addrs(bs); }
    }
    if bs != [] { assert bs[0].addr in Addrs(bs); }
  }

  // ----- a trimmed block that stays linked

  lemma FaultIsUnique(m: seq<Word>, start: int, end: int, head: int, k: nat, r: Report, k': nat, r': Report)
    requires FaultAt(m, start, end, head, k, r) && FaultAt(m, start, end, head, k', r')
    ensures k == k' && r == r'
  {
    FaultDoesNotPass(m, start, end, head, k, r);
    FaultDoesNotPass(m, start, end, head, k', r');
  }

  lemma FaultDoesNotPass(m: seq<Word>, start: int, end: int, head: int, k: nat, r: Report)
    requires FaultAt(m, start, end, head, k, r)
    ensures !Passes(m, start, end, Walk(m, head, k))
  {
  }

  /** Where kfree as coded lowers the top to the last block of a represented list
      and leaves that block linked, heap_validate reports it as out of range. */
  lemma TrimmedIsReported(m: seq<Word>, h: Heap)
    requires WellFormed(h) && h.blocks != [] && Headers(m, h.blocks) && |m| == RAM
    ensures var bs, k := h.blocks, |h.blocks| - 1;
      && !Cyclic(m, AddrOf(bs, 0))
      && FaultAt(m, HEAP_START, bs[k].addr, AddrOf(bs, 0), k, OutsideRange)
  {
    var bs, k := h.blocks, |h.blocks| - 1;
    SoundIsApart(h);
    WalkOfList(m, bs, |bs|);
    forall j: nat | j < k ensures Passes(m, HEAP_START, bs[k].addr, Walk(m, AddrOf(bs, 0), j)) {
      WalkOfList(m, bs, j);
      assert BlockOk(bs[j + 1], h.end) && BlockOk(bs[k], h.end);
      assert j + 1 < k ==> PayloadEnd(bs[j + 1]) <= bs[k].addr;
      PassesBelow(m, h, j, bs[k].addr);
    }
    WalkOfList(m, bs, k);
    assert HeaderAt(m, bs, k) && BlockOk(bs[k], h.end);
  }

  lemma PassesBelow(m: seq<Word>, h: Heap, j: nat, top: int)
    requires WellFormed(h) && Headers(m, h.blocks) && |m| == RAM && j + 1 < |h.blocks|
    requires h.blocks[j + 1].addr <= top <= h.end
    ensures Passes(m, HEAP_START, top, h.blocks[j].addr)
  {
    assert HeaderAt(m, h.blocks, j) && HeaderAt(m, h.blocks, j + 1);
    assert BlockOk(h.blocks[j], h.end) && BlockOk(h.blocks[j + 1], h.end);
  }

  lemma {:induction false} WalkBeside(m0: seq<Word>, m1: seq<Word>, bs: seq<Block>, k: nat)
    requires Headers(m0, bs) && Apart(bs) && |m0| == |m1| && k < |bs|
    requires forall j :: 0 <= j < k ==> SameLink(m0, m1, bs[j].addr)
    ensures Walk(m1, AddrOf(bs, 0), k) == bs[k].addr
  {
    if k > 0 {
      WalkBeside(m0, m1, bs, k - 1);
      assert HeaderAt(m0, bs, k - 1) && SameLink(m0, m1, bs[k - 1].addr);
    }
  }

  ghost predicate SameLink(m0: seq<Word>, m1: seq<Word>, a: int) {
    0 <= a && a + NEXT_AT < |m0| == |m1| && m1[a + NEXT_AT] == m0[a + NEXT_AT]
  }

  /** The stores with which the next kmalloc appends a block there link it to
      itself, and the chain never ends. */
  lemma NextBlockLinksToItself(m0: seq<Word>, m1: seq<Word>, h: Heap, n: Word)
    requires WellFormed(h) && h.blocks != [] && Headers(m0, h.blocks) && |m0| == RAM
    requires var top := h.blocks[|h.blocks| - 1].addr;
      top + HEADER + n < RAM && 0 <= top < TWO32 && top + NEXT_AT < RAM
      && m1 == BlockWritten(m0, top, n, 0, 0, top)[top + NEXT_AT := top]
    ensures Cyclic(m1, AddrOf(h.blocks, 0))
  {
    var bs, k := h.blocks, |h.blocks| - 1;
    SoundIsApart(h);
    forall j | 0 <= j < k ensures SameLink(m0, m1, bs[j].addr) {
      assert bs[j].addr + HEADER <= bs[k].addr && HeaderAt(m0, bs, j);
    }
    WalkBeside(m0, m1, bs, k);
    assert HEAP_START <= bs[k].addr;
    assert Walk(m1, AddrOf(bs, 0), k + 1) == bs[k].addr;
    RepeatIsCyclic(m1, AddrOf(bs, 0), k, 1);
  }
}

/** heap_validate of src/kernel/mm/heap.c. */
module HeapValidation {
  import opened Words
  import opened HeapSpec
  import opened HeapMemory
  import opened HeapWalk
  import opened KernelHeap

  /** heap_validate, on memory in any condition: `nodes` are the readable
      headers that the links stay among. */
  method HeapValidate(h: KernelHeap, ghost nodes: set<int>) returns (r: Report)
    requires Closed(h.mem[..], h.head, nodes)
    ensures r == CycleFound <==> Cyclic(h.mem[..], h.head)
    ensures r != CycleFound ==> exists k: nat :: FaultAt(h.mem[..], h.start, h.end, h.head, k, r)
    ensures r == StructureValid <==>
      (!Cyclic(h.mem[..], h.head) && forall j: nat :: PassesAt(h.mem[..], h.start, h.end, h.head, j))
    ensures h.Valid() ==> r == StructureValid
  {
    if h.Valid() { WellFormedValidates(h.mem[..], h.State()); }
    var cyclic := HasCycle(h, nodes);
    if cyclic { return CycleFound; }
    ghost var k: nat;
    r, k := Scan(h, nodes);
    FaultMeaning(h.mem[..], h.start, h.end, h.head, k, r);
  }

  /** The tortoise and hare loop. */
  method HasCycle(h: KernelHeap, ghost nodes: set<int>) returns (cyclic: bool)
    requires Closed(h.mem[..], h.head, nodes)
    ensures cyclic <==> Cyclic(h.mem[..], h.head)
  {
    ghost var m := h.mem[..];
    var slow, fast := h.head, h.head;
    ghost var k: nat := 0;
    while fast != 0 && h.mem[fast + NEXT_AT] != 0
      invariant slow == Walk(m, h.head, k) && fast == Walk(m, h.head, 2 * k)
      invariant fast == 0 || fast in nodes
      invariant forall j :: 1 <= j <= k ==> Walk(m, h.head, j) != Walk(m, h.head, 2 * j)
      decreases |nodes| - k
    {
      SlowIsInside(m, h.head, nodes, k);
      NotYetAround(m, h.head, nodes, k);
      TwoSteps(m, h.head, k);
      assert h.mem[fast + NEXT_AT] == Walk(m, h.head, 2 * k + 1);
      slow := h.mem[slow + NEXT_AT];
      fast := h.mem[h.mem[fast + NEXT_AT] + NEXT_AT];
      k := k + 1;
      WalkStaysInside(m, h.head, nodes, 2 * k);
      if slow == fast {
        MeetingIsCyclic(m, h.head, k);
        return true;
      }
    }
    EndedWalk(m, h.head, 2 * k);
    return false;
  }

  /** The loop over the per-block checks. */
  method Scan(h: KernelHeap, ghost nodes: set<int>) returns (r: Report, ghost k: nat)
    requires Closed(h.mem[..], h.head, nodes) && !Cyclic(h.mem[..], h.head)
    ensures r != CycleFound && FaultAt(h.mem[..], h.start, h.end, h.head, k, r)
  {
    ghost var m := h.mem[..];
    ghost var n: nat :| Walk(m, h.head, n) == 0;
    var current := h.head;
    k := 0;
    while current != 0
      invariant current == Walk(m, h.head, k) && (current == 0 || current in nodes) && k <= n
      invariant forall j: nat :: j < k ==> Passes(m, h.start, h.end, Walk(m, h.head, j))
      decreases n - k
    {
      var next := h.mem[current + NEXT_AT];
      if h.mem[current] != MAGIC { return MagicCorrupted, k; }
      if next != 0 && h.mem[next + PREV_AT] != current { return LinkCorrupted, k; }
      if current < h.start || current >= h.end { return OutsideRange, k; }
      if W32(current + HEADER + h.mem[current + SIZE_AT]) > h.end { return ExceedsHeap, k; }
      assert Walk(m, h.head, k + 1) == next;
      current := next;
      k := k + 1;
    }
    r := StructureValid;
  }
}

/** Runs of heap accesses served by the page-fault handler, as a state machine
    over used frames and backed pages. */
module DemandPaging {
  import opened Frames

  const FIRST_PAGE := 0x400
  const LAST_PAGE := 0x800

  /** Used frames, the frame of the heap's page table (0: none yet), the frame
      behind each backed heap page, and whether the kernel has panicked. */
  datatype Vm = Vm(used: set<nat>, limit: nat, table: nat, backed: map<nat, nat>, halted: bool)

  function DataFrame(vm: Vm): nat {
    LowestFree(vm.used, 0, vm.limit)
  }

  function TableFrame(vm: Vm): nat {
    LowestFree(vm.used + {DataFrame(vm)}, 0, vm.limit)
  }

  /** A kernel access to a heap page: the first one faults, and the handler
      takes a frame for the page and, once, one for the page table. */
  function Touch(vm: Vm, page: nat): Vm {
    var f := DataFrame(vm);
    if vm.halted || page in vm.backed then vm
    else if f == vm.limit then vm.(halted := true)
    else if vm.table != 0 then vm.(used := vm.used + {f}, backed := vm.backed[page := f])
    else vm.(used := vm.used + {f} + {TableFrame(vm)}, table := TableFrame(vm), backed := vm.backed[page := f])
  }

  /** The unchecked table allocation of the access, if there is one, succeeds
      with a frame that the identity map reaches. */
  predicate TableAvailable(vm: Vm, page: nat) {
    vm.halted || page in vm.backed || DataFrame(vm) == vm.limit || vm.table != 0
    || (TableFrame(vm) < vm.limit && TableFrame(vm) < 1024)
  }

  function TouchAll(vm: Vm, pages: seq<nat>): Vm
    decreases |pages|
  {
    if pages == [] then vm else TouchAll(Touch(vm, pages[0]), pages[1..])
  }

  predicate TablesAvailable(vm: Vm, pages: seq<nat>)
    decreases |pages|
  {
    pages == [] || (TableAvailable(vm, pages[0]) && TablesAvailable(Touch(vm, pages[0]), pages[1..]))
  }

  predicate HeapPages(pages: seq<nat>) {
    forall i :: 0 <= i < |pages| ==> FIRST_PAGE <= pages[i] < LAST_PAGE
  }

  ghost predicate Injective(m: map<nat, nat>) {
    forall p, q :: p in m && q in m && m[p] == m[q] ==> p == q
  }

  ghost function TableSet(vm: Vm): set<nat> {
    if vm.table == 0 then {} else {vm.table}
  }

  /** Relative to the frames `reserved` that were in use before paging the heap:
      everything used since backs exactly one page or is the one table. */
  ghost predicate Backing(vm: Vm, reserved: set<nat>) {
    && 0 in reserved
    && vm.used == reserved + vm.backed.Values + TableSet(vm)
    && vm.backed.Values !! reserved && TableSet(vm) !! reserved + vm.backed.Values
    && Injective(vm.backed)
    && (vm.table == 0 ==> vm.backed == map[])
    && forall p :: p in vm.backed ==> FIRST_PAGE <= p < LAST_PAGE
  }

  lemma TouchBacks(vm: Vm, reserved: set<nat>, page: nat)
    requires Backing(vm, reserved) && FIRST_PAGE <= page < LAST_PAGE && TableAvailable(vm, page)
    ensures var g := Touch(vm, page);
      && Backing(g, reserved) && (g.halted || page in g.backed)
      && forall p :: p in vm.backed ==> p in g.backed && g.backed[p] == vm.backed[p]
  {
    var g, f := Touch(vm, page), DataFrame(vm);
    if !vm.halted && page !in vm.backed && f < vm.limit {
      AddedValue(vm.backed, page, f);
    }
  }

  lemma AddedValue(m: map<nat, nat>, k: nat, v: nat)
    requires k !in m
    ensures m[k := v].Values == m.Values + {v}
  {
    var n := m[k := v];
    forall x | x in m.Values + {v} ensures x in n.Values {
      if x in m.Values {
        var p :| p in m && m[p] == x;
        assert n[p] == x;
      } else {
        assert n[k] == x;
      }
    }
  }

  lemma BackingMeans(vm: Vm, reserved: set<nat>)
    requires Backing(vm, reserved)
    ensures forall p, q :: p in vm.backed && q in vm.backed && p != q ==> vm.backed[p] != vm.backed[q]
    ensures forall p :: p in vm.backed ==> vm.backed[p] !in reserved && vm.backed[p] != vm.table
    ensures vm.table != 0 ==> vm.table in vm.used && vm.table !in reserved
    ensures forall f :: f in vm.used ==> f in reserved || f == vm.table || exists p :: p in vm.backed && vm.backed[p] == f
  {
    forall p | p in vm.backed ensures vm.backed[p] !in reserved && vm.backed[p] != vm.table {
      assert vm.backed[p] in vm.backed.Values;
    }
  }

  /** Over any run of accesses distinct backed pages have distinct frames, none
      of them reserved or a table, a backed page keeps its frame, and unless the
      kernel panics every page accessed is backed. */
  lemma {:induction false} RunBacks(vm: Vm, reserved: set<nat>, pages: seq<nat>)
    requires Backing(vm, reserved) && TablesAvailable(vm, pages)
    requires HeapPages(pages)
    ensures var g := TouchAll(vm, pages);
      && Backing(g, reserved)
      && (forall p, q :: p in g.backed && q in g.backed && p != q ==> g.backed[p] != g.backed[q])
      && (forall p :: p in g.backed ==> g.backed[p] !in reserved && g.backed[p] != g.table)
      && (forall p :: p in vm.backed ==> p in g.backed && g.backed[p] == vm.backed[p])
      && (g.halted || forall i :: 0 <= i < |pages| ==> pages[i] in g.backed)
    decreases |pages|
  {
    if pages == [] {
      BackingMeans(vm, reserved);
    } else {
      TouchBacks(vm, reserved, pages[0]);
      RunBacks(Touch(vm, pages[0]), reserved, pages[1..]);
      assert forall i :: 1 <= i < |pages| ==> pages[i] == pages[1..][i - 1];
      if Touch(vm, pages[0]).halted { HaltedStays(Touch(vm, pages[0]), pages[1..]); }
    }
  }

  lemma {:induction false} HaltedStays(vm: Vm, pages: seq<nat>)
    requires vm.halted
    ensures TouchAll(vm, pages) == vm
    decreases |pages|
  {
    if pages != [] { HaltedStays(vm, pages[1..]); }
  }

  lemma WithoutKey(m: map<nat, nat>, k: nat) returns (n: map<nat, nat>)
    requires Injective(m) && k in m
    ensures k !in n && n.Keys == m.Keys - {k} && m == n[k := m[k]] && |n| == |m| - 1
    ensures Injective(n) && m[k] !in n.Values
  {
    n := map p | p in m && p != k :: m[p];
    assert n.Keys == m.Keys - {k};
  }

  lemma {:induction false} ValuesCount(m: map<nat, nat>)
    requires Injective(m)
    ensures |m.Values| == |m|
    decreases |m|
  {
    if m != map[] {
      var k :| k in m;
      var n := WithoutKey(m, k);
      ValuesCount(n);
      AddedValue(n, k, m[k]);
    }
  }

  lemma PageCount(m: map<nat, nat>, lo: nat, hi: nat)
    requires lo <= hi && forall p :: p in m ==> lo <= p < hi
    ensures |m| <= hi - lo
    decreases hi - lo
  {
    if lo == hi {
      assert m.Keys == {};
    } else {
      var n := map p | p in m && p != lo :: m[p];
      assert m.Keys <= n.Keys + {lo};
      assert n.Keys == m.Keys - {lo};
      PageCount(n, lo + 1, hi);
    }
  }

  /** The whole heap range takes at most one frame per page and one table. */
  lemma RunConsumes(vm: Vm, reserved: set<nat>, pages: seq<nat>)
    requires Backing(vm, reserved) && TablesAvailable(vm, pages)
    requires HeapPages(pages)
    ensures var g := TouchAll(vm, pages);
      && |g.used| == |reserved| + |g.backed| + |TableSet(g)|
      && |g.used| <= |reserved| + 1024 + 1
  {
    RunBacks(vm, reserved, pages);
    var g := TouchAll(vm, pages);
    ValuesCount(g.backed);
    PageCount(g.backed, FIRST_PAGE, LAST_PAGE);
    assert |reserved + g.backed.Values| == |reserved| + |g.backed.Values|;
  }
}

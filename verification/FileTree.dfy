/** RAM file system nodes behind the numbers that the path walk works on. */
module FileTree {
  import opened Paths
  import opened Vfs
  import opened Ramfs

  /** The lookup operation of every numbered node is ramfs_lookup on the object
      behind the number. */
  ghost predicate Mirrors(tree: Tree, nodes: map<nat, RamNode>)
    reads nodes.Values
  {
    && 0 !in nodes
    && (forall n :: n in nodes ==> tree.hasLookup(n))
    && forall n, part :: n in nodes ==> FindsChild(tree, nodes, n, part)
  }

  ghost predicate FindsChild(tree: Tree, nodes: map<nat, RamNode>, n: nat, part: string)
    requires n in nodes
    reads nodes.Values
  {
    Leads(tree, nodes, n, part, ChildNamed(nodes[n].children, part))
  }

  /** Looking up `part` in node n leads to node c, or nowhere when c is null. */
  ghost predicate Leads(tree: Tree, nodes: map<nat, RamNode>, n: nat, part: string, c: RamNode?) {
    var r := tree.lookup(n, part);
    if c == null then r == 0 else r in nodes && nodes[r] == c
  }

  /** The objects behind a file system: its root and all mounted roots are among
      the numbered nodes. */
  ghost predicate Behind(vfs: Vfs, nodes: map<nat, RamNode>)
    reads vfs, vfs.mounts, nodes.Values
  {
    && vfs.Valid() && Mirrors(vfs.tree, nodes) && (vfs.root == 0 || vfs.root in nodes)
    && RootsIn(vfs.Table(), nodes)
  }

  ghost predicate RootsIn(ms: seq<Mount>, nodes: map<nat, RamNode>) {
    forall i :: 0 <= i < |ms| ==> ms[i].root in nodes
  }

  lemma {:induction false} MountStaysIn(ms: seq<Mount>, nodes: map<nat, RamNode>, n: nat)
    requires RootsIn(ms, nodes) && n in nodes
    ensures CheckMount(ms, n) in nodes
  {
    if ms != [] && ms[0].point != n { MountStaysIn(ms[1..], nodes, n); }
  }

  /** A walk never leaves the numbered nodes. */
  lemma {:induction false} WalkStaysIn(tree: Tree, ms: seq<Mount>, nodes: map<nat, RamNode>, cur: nat, parts: seq<string>)
    requires Mirrors(tree, nodes) && RootsIn(ms, nodes) && cur in nodes
    ensures Resolve(tree, ms, cur, parts) == 0 || Resolve(tree, ms, cur, parts) in nodes
    decreases |parts|
  {
    if parts != [] {
      assert FindsChild(tree, nodes, cur, parts[0]);
      var n := Raw(tree, cur, parts[0]);
      if n != 0 {
        MountStaysIn(ms, nodes, n);
        WalkStaysIn(tree, ms, nodes, CheckMount(ms, n), parts[1..]);
      }
    }
  }

  /** The node that a path names; null when it does not resolve. */
  ghost function Target(vfs: Vfs, nodes: map<nat, RamNode>, path: string): RamNode?
    requires Behind(vfs, nodes)
    reads vfs, vfs.mounts, nodes.Values
  {
    var n := if vfs.root == 0 then 0 else Resolve(vfs.tree, vfs.Table(), vfs.root, Components(path));
    if n in nodes then nodes[n] else null
  }

  predicate PathOk(path: string) {
    '\0' !in path && ShortParts(Components(path))
  }

  /** vfs_lookup on the objects. */
  method LookupNode(vfs: Vfs, nodes: map<nat, RamNode>, path: string) returns (node: RamNode?)
    requires Behind(vfs, nodes) && PathOk(path)
    ensures node == Target(vfs, nodes, path)
  {
    var n := vfs.VfsLookup(path);
    if n == 0 { return null; }
    WalkStaysIn(vfs.tree, vfs.Table(), nodes, vfs.root, Components(path));
    return nodes[n];
  }

  /** One step of the walk is ramfs_lookup on the object, then the mount check. */
  lemma OneStep(tree: Tree, ms: seq<Mount>, nodes: map<nat, RamNode>, cur: nat, parts: seq<string>)
    requires Mirrors(tree, nodes) && cur in nodes && parts != []
    ensures var c := ChildNamed(nodes[cur].children, parts[0]);
      if c == null then Resolve(tree, ms, cur, parts) == 0
      else exists n :: n in nodes && nodes[n] == c && Resolve(tree, ms, cur, parts) == Resolve(tree, ms, CheckMount(ms, n), parts[1..])
  {
    assert FindsChild(tree, nodes, cur, parts[0]);
  }

  // ----- creating nodes

  /** The lookups after a node numbered `child` and called `name` was created in
      the directory numbered `parent`. */
  function Grown(t: Tree, parent: nat, name: string, child: nat): Tree {
    Tree((n: nat) => n == child || t.hasLookup(n),
         (n: nat, part: string) => GrownLookup(t, parent, name, child, n, part))
  }

  function GrownLookup(t: Tree, parent: nat, name: string, child: nat, n: nat, part: string): nat {
    if n == child then 0
    else if n == parent && part == name && t.lookup(n, part) == 0 then child
    else t.lookup(n, part)
  }

  /** Creating a node changes no path that resolved before. */
  lemma {:induction false} GrownKeepsPaths(t: Tree, ms: seq<Mount>, nodes: map<nat, RamNode>, parent: nat, name: string, child: nat,
                                           cur: nat, parts: seq<string>)
    requires Mirrors(t, nodes) && RootsIn(ms, nodes) && cur in nodes && child !in nodes
    requires Resolve(t, ms, cur, parts) != 0
    ensures Resolve(Grown(t, parent, name, child), ms, cur, parts) == Resolve(t, ms, cur, parts)
    decreases |parts|
  {
    if parts != [] {
      assert FindsChild(t, nodes, cur, parts[0]);
      var n := Raw(t, cur, parts[0]);
      MountStaysIn(ms, nodes, n);
      GrownKeepsPaths(t, ms, nodes, parent, name, child, CheckMount(ms, n), parts[1..]);
    }
  }

  lemma {:induction false} NoMount(ms: seq<Mount>, n: nat)
    requires !IsMountpoint(ms, n)
    ensures CheckMount(ms, n) == n
  {
    if ms != [] {
      assert ms[0].point != n;
      assert forall i :: 0 <= i < |ms[1..]| ==> ms[1..][i] == ms[i + 1];
      NoMount(ms[1..], n);
    }
  }

  /** The created node is what path/name resolves to, wherever path led to its
      directory and the name was not taken. */
  lemma GrownFindsChild(t: Tree, ms: seq<Mount>, nodes: map<nat, RamNode>, parent: nat, name: string, child: nat,
                        cur: nat, parts: seq<string>)
    requires Mirrors(t, nodes) && RootsIn(ms, nodes) && MountsOk(ms) && cur in nodes && cur != 0
    requires child !in nodes && child != 0 && !IsMountpoint(ms, child)
    requires Resolve(t, ms, cur, parts) == parent && parent in nodes && t.lookup(parent, name) == 0
    ensures Resolve(Grown(t, parent, name, child), ms, cur, parts + [name]) == child
  {
    var g := Grown(t, parent, name, child);
    GrownKeepsPaths(t, ms, nodes, parent, name, child, cur, parts);
    ResolveConcat(g, ms, cur, parts, [name]);
    NoMount(ms, child);
    assert [name][1..] == [];
  }

  /** Where lookups led while the directory still had the children `was`. */
  ghost predicate LedBefore(t: Tree, nodes: map<nat, RamNode>, was: seq<RamNode>, parent: nat, n: nat, part: string)
    requires n in nodes
    reads nodes.Values
  {
    Leads(t, nodes, n, part, ChildNamed(if n == parent then was else nodes[n].children, part))
  }

  lemma GrownMirrors(t: Tree, nodes: map<nat, RamNode>, was: seq<RamNode>, parent: nat, name: string, number: nat, child: RamNode)
    requires 0 !in nodes && number != 0 && number !in nodes && parent in nodes && '\0' !in name
    requires forall n :: n in nodes ==> t.hasLookup(n)
    requires nodes[parent].children == was + [child] && child.name == name && child.children == []
    requires forall n, part :: n in nodes ==> LedBefore(t, nodes, was, parent, n, part)
    ensures Mirrors(Grown(t, parent, name, number), nodes[number := child])
  {
    var g, all := Grown(t, parent, name, number), nodes[number := child];
    forall n, part | n in all ensures FindsChild(g, all, n, part) {
      assert n in nodes ==> LedBefore(t, nodes, was, parent, n, part);
      if n == parent { CreatedIsFound(was, child, part); }
    }
  }

  lemma GrownPaths(t: Tree, ms: seq<Mount>, nodes: map<nat, RamNode>, parent: nat, name: string, number: nat)
    requires Mirrors(t, nodes) && RootsIn(ms, nodes) && MountsOk(ms) && parent in nodes
    requires number != 0 && number !in nodes && !IsMountpoint(ms, number)
    ensures forall cur, parts :: cur in nodes ==> Extends(t, Grown(t, parent, name, number), ms, cur, parts)
    ensures t.lookup(parent, name) == 0 ==>
      forall cur, parts :: cur in nodes && Resolve(t, ms, cur, parts) == parent ==>
        Resolve(Grown(t, parent, name, number), ms, cur, parts + [name]) == number
  {
    forall cur, parts | cur in nodes ensures Extends(t, Grown(t, parent, name, number), ms, cur, parts) {
      if Resolve(t, ms, cur, parts) != 0 { GrownKeepsPaths(t, ms, nodes, parent, name, number, cur, parts); }
    }
    if t.lookup(parent, name) == 0 {
      forall cur, parts | cur in nodes && Resolve(t, ms, cur, parts) == parent
        ensures Resolve(Grown(t, parent, name, number), ms, cur, parts + [name]) == number
      {
        GrownFindsChild(t, ms, nodes, parent, name, number, cur, parts);
      }
    }
  }

  /** ramfs_create through the file system: the directory gets the node, and the
      numbered tree follows. `number` is the new node's address: not the number of
      any node, and not a mountpoint. */
  method CreateNode(vfs: Vfs, nodes: map<nat, RamNode>, parent: nat, dir: RamNode, name: string, isDir: bool, number: nat)
    returns (r: int, all: map<nat, RamNode>)
    requires Behind(vfs, nodes) && parent in nodes && nodes[parent] == dir && dir.Valid() && '\0' !in name
    requires number != 0 && number !in nodes && !IsMountpoint(vfs.Table(), number)
    requires forall n :: n in nodes && n != parent ==> nodes[n] != dir
    modifies dir`children, vfs`tree
    ensures Behind(vfs, all) && vfs.Table() == old(vfs.Table())
    ensures r == if |old(dir.children)| >= MAX_CHILDREN then -1 else 0
    ensures r == -1 ==> all == nodes && vfs.tree == old(vfs.tree) && dir.children == old(dir.children)
    ensures r == 0 ==>
      && number in all && all == nodes[number := all[number]] && fresh(all[number])
      && all[number].name == name && all[number].isDir == isDir && all[number].Valid() && all[number].Contents() == ""
      && dir.children == old(dir.children) + [all[number]]
      && vfs.tree == Grown(old(vfs.tree), parent, name, number)
    ensures r == 0 ==> forall cur, parts :: cur in nodes ==> Extends(old(vfs.tree), vfs.tree, vfs.Table(), cur, parts)
    ensures r == 0 && ChildNamed(old(dir.children), name) == null ==>
      forall cur, parts :: cur in nodes && Resolve(old(vfs.tree), vfs.Table(), cur, parts) == parent ==>
        Resolve(vfs.tree, vfs.Table(), cur, parts + [name]) == number
  {
    ghost var t, ms, was := vfs.tree, vfs.Table(), dir.children;
    assert FindsChild(t, nodes, parent, name);
    GrownPaths(t, ms, nodes, parent, name, number);
    var child: RamNode?;
    r, child := dir.Create(name, isDir);
    if r != 0 { return r, nodes; }
    forall n, part | n in nodes ensures LedBefore(t, nodes, was, parent, n, part) {
      assert old(FindsChild(t, nodes, n, part));
    }
    GrownMirrors(t, nodes, was, parent, name, number, child);
    vfs.tree := Grown(vfs.tree, parent, name, number);
    all := nodes[number := child];
  }

  /** Every path that resolved in t resolves to the same node in u. */
  predicate Extends(t: Tree, u: Tree, ms: seq<Mount>, cur: nat, parts: seq<string>) {
    Resolve(t, ms, cur, parts) != 0 ==> Resolve(u, ms, cur, parts) == Resolve(t, ms, cur, parts)
  }
}

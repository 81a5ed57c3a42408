/** Path names, the walk that resolves them, and what a mount changes. */
module Paths {
  import opened TextRuns

  /** The `lookup` operations of all nodes. Nodes are numbered from 1; 0 is the
      null node. */
  datatype Tree = Tree(hasLookup: nat -> bool, lookup: (nat, string) -> nat)

  datatype Mount = Mount(point: nat, root: nat)

  /** The components of a path. */
  function Components(path: string): seq<string> {
    Runs(path, '/')
  }

  // ----- resolving

  /** The root mounted on a node, or the node itself: the first mount wins. */
  function CheckMount(ms: seq<Mount>, node: nat): nat {
    if ms == [] then node
    else if ms[0].point == node then ms[0].root
    else CheckMount(ms[1..], node)
  }

  predicate IsMountpoint(ms: seq<Mount>, node: nat) {
    exists i :: 0 <= i < |ms| && ms[i].point == node
  }

  predicate MountsOk(ms: seq<Mount>) {
    forall i :: 0 <= i < |ms| ==> ms[i].root != 0
  }

  lemma {:induction false} CheckMountAppend(ms: seq<Mount>, m: Mount, node: nat)
    ensures CheckMount(ms + [m], node) ==
      if IsMountpoint(ms, node) then CheckMount(ms, node) else if node == m.point then m.root else node
    ensures !IsMountpoint(ms, node) ==> CheckMount(ms, node) == node
    ensures MountsOk(ms) && node != 0 ==> CheckMount(ms, node) != 0
  {
    if ms != [] {
      assert (ms + [m])[1..] == ms[1..] + [m];
      CheckMountAppend(ms[1..], m, node);
      if IsMountpoint(ms, node) && ms[0].point != node {
        var i :| 0 <= i < |ms| && ms[i].point == node;
        assert ms[1..][i - 1].point == node;
      }
      if IsMountpoint(ms[1..], node) {
        var i :| 0 <= i < |ms[1..]| && ms[1..][i].point == node;
        assert ms[i + 1].point == node;
      }
    }
  }

  /** The node that one lookup finds, before any mount; 0 when it fails. */
  function Raw(t: Tree, cur: nat, part: string): nat {
    if t.hasLookup(cur) then t.lookup(cur, part) else 0
  }

  /** The left fold of lookup-then-mount; 0 as soon as a lookup fails. */
  function Resolve(t: Tree, ms: seq<Mount>, cur: nat, parts: seq<string>): nat
    decreases |parts|
  {
    if parts == [] then cur
    else
      var n := Raw(t, cur, parts[0]);
      if n == 0 then 0 else Resolve(t, ms, CheckMount(ms, n), parts[1..])
  }

  /** The nodes found along the walk, before any mount. */
  function Visits(t: Tree, ms: seq<Mount>, cur: nat, parts: seq<string>): (v: seq<nat>)
    ensures |v| <= |parts|
    decreases |parts|
  {
    if parts == [] then []
    else
      var n := Raw(t, cur, parts[0]);
      if n == 0 then [] else [n] + Visits(t, ms, CheckMount(ms, n), parts[1..])
  }

  /** A walk of one component: it ends where there is no lookup operation or the
      lookup finds nothing, and otherwise goes to the node found or to the root
      mounted on it. */
  lemma ResolveOne(t: Tree, ms: seq<Mount>, cur: nat, part: string)
    ensures Resolve(t, ms, cur, []) == cur && Visits(t, ms, cur, []) == []
    ensures !t.hasLookup(cur) || t.lookup(cur, part) == 0 ==>
      Resolve(t, ms, cur, [part]) == 0 && Visits(t, ms, cur, [part]) == []
    ensures t.hasLookup(cur) && t.lookup(cur, part) != 0 ==>
      && Resolve(t, ms, cur, [part]) == CheckMount(ms, t.lookup(cur, part))
      && Visits(t, ms, cur, [part]) == [t.lookup(cur, part)]
  {
    assert [part][1..] == [];
  }

  /** The node found after a walk along p, before its mount, is the last visited. */
  lemma {:induction false} VisitsConcat(t: Tree, ms: seq<Mount>, cur: nat, p: seq<string>, q: seq<string>)
    requires cur != 0 && MountsOk(ms)
    ensures var n := Resolve(t, ms, cur, p);
      Visits(t, ms, cur, p + q) == Visits(t, ms, cur, p) + if n == 0 then [] else Visits(t, ms, n, q)
    decreases |p|
  {
    if p == [] {
      assert p + q == q;
    } else {
      assert (p + q)[1..] == p[1..] + q;
      var n := Raw(t, cur, p[0]);
      if n != 0 {
        CheckMountAppend(ms, Mount(0, 0), n);
        VisitsConcat(t, ms, CheckMount(ms, n), p[1..], q);
      }
    }
  }

  /** Resolving p then q is resolving q from where p leads, when p resolves. */
  lemma {:induction false} ResolveConcat(t: Tree, ms: seq<Mount>, cur: nat, p: seq<string>, q: seq<string>)
    requires cur != 0 && MountsOk(ms)
    ensures var n := Resolve(t, ms, cur, p);
      Resolve(t, ms, cur, p + q) == if n == 0 then 0 else Resolve(t, ms, n, q)
    decreases |p|
  {
    if p == [] {
      assert p + q == q;
    } else {
      assert (p + q)[1..] == p[1..] + q;
      var n := Raw(t, cur, p[0]);
      if n != 0 {
        CheckMountAppend(ms, Mount(0, 0), n);
        ResolveConcat(t, ms, CheckMount(ms, n), p[1..], q);
      }
    }
  }

  /** The same law for path strings. */
  lemma ResolvePathJoin(t: Tree, ms: seq<Mount>, cur: nat, p: string, q: string)
    requires cur != 0 && MountsOk(ms)
    ensures var n := Resolve(t, ms, cur, Components(p));
      Resolve(t, ms, cur, Components(p + "/" + q)) == if n == 0 then 0 else Resolve(t, ms, n, Components(q))
  {
    RunsJoin(p, '/', q);
    assert p + "/" + q == p + ['/'] + q;
    ResolveConcat(t, ms, cur, Components(p), Components(q));
  }

  // ----- mounting

  /** A walk that never finds the new mountpoint is unaffected by the mount. */
  lemma {:induction false} MountUnseen(t: Tree, ms: seq<Mount>, m: Mount, cur: nat, parts: seq<string>)
    requires m.point !in Visits(t, ms, cur, parts)
    ensures Resolve(t, ms + [m], cur, parts) == Resolve(t, ms, cur, parts)
    decreases |parts|
  {
    if parts != [] {
      var n := Raw(t, cur, parts[0]);
      if n != 0 {
        CheckMountAppend(ms, m, n);
        assert Visits(t, ms, cur, parts)[0] == n;
        MountUnseen(t, ms, m, CheckMount(ms, n), parts[1..]);
      }
    }
  }

  /** A mount on a node that is a mountpoint already changes no walk. */
  lemma {:induction false} MountTaken(t: Tree, ms: seq<Mount>, m: Mount, cur: nat, parts: seq<string>)
    requires IsMountpoint(ms, m.point)
    ensures Resolve(t, ms + [m], cur, parts) == Resolve(t, ms, cur, parts)
    decreases |parts|
  {
    if parts != [] {
      var n := Raw(t, cur, parts[0]);
      if n != 0 {
        CheckMountAppend(ms, m, n);
        MountTaken(t, ms, m, CheckMount(ms, n), parts[1..]);
      }
    }
  }

  /** Position of the first x, or the length. */
  function IndexOf(v: seq<nat>, x: nat): (k: nat)
    ensures k <= |v| && x !in v[..k] && (k < |v| ==> v[k] == x)
  {
    if v == [] || v[0] == x then 0 else 1 + IndexOf(v[1..], x)
  }

  /** What a mount changes, for every walk: a walk that finds the new mountpoint
      goes on from the mounted root where it first finds it, and every other walk
      ends where it did; on a node that is a mountpoint already nothing changes. */
  lemma {:induction false} MountLaw(t: Tree, ms: seq<Mount>, m: Mount, cur: nat, parts: seq<string>)
    ensures var v := Visits(t, ms, cur, parts);
      var k := IndexOf(v, m.point);
      Resolve(t, ms + [m], cur, parts) ==
        if IsMountpoint(ms, m.point) || k == |v| then Resolve(t, ms, cur, parts)
        else Resolve(t, ms + [m], m.root, parts[k + 1..])
    decreases |parts|
  {
    var v := Visits(t, ms, cur, parts);
    if IsMountpoint(ms, m.point) {
      MountTaken(t, ms, m, cur, parts);
    } else if v != [] {
      var n := Raw(t, cur, parts[0]);
      CheckMountAppend(ms, m, n);
      if n != m.point {
        MountLaw(t, ms, m, CheckMount(ms, n), parts[1..]);
        var k := IndexOf(v[1..], m.point);
        assert v == [n] + Visits(t, ms, CheckMount(ms, n), parts[1..]) && v[1..] == Visits(t, ms, CheckMount(ms, n), parts[1..]);
        if k < |v[1..]| { assert parts[1..][k + 1..] == parts[k + 2..]; }
      }
    }
  }

  /** What a path that ends at the mountpoint resolves to after the mount: the
      mounted root exactly when the node found last was not a mountpoint yet. */
  lemma MountSeenAtEnd(t: Tree, ms: seq<Mount>, m: Mount, cur: nat, parts: seq<string>)
    requires cur != 0 && MountsOk(ms) && m.root != 0 && parts != []
    requires Resolve(t, ms, cur, parts) == m.point != 0
    requires var k := |parts| - 1; m.point !in Visits(t, ms, cur, parts[..k])
    ensures var last := Raw(t, Resolve(t, ms, cur, parts[..|parts| - 1]), parts[|parts| - 1]);
      Resolve(t, ms + [m], cur, parts) == if IsMountpoint(ms, last) then m.point else m.root
  {
    var k := |parts| - 1;
    var p, q := parts[..k], [parts[k]];
    assert parts == p + q;
    MountUnseen(t, ms, m, cur, p);
    ResolveConcat(t, ms, cur, p, q);
    assert MountsOk(ms + [m]);
    ResolveConcat(t, ms + [m], cur, p, q);
    var n := Resolve(t, ms, cur, p);
    var last := Raw(t, n, q[0]);
    CheckMountAppend(ms, m, last);
    assert q[1..] == [];
  }

  /** After a mount at a path whose node was no mountpoint and is first found at
      the end of its walk, everything below the path is the mounted tree. */
  lemma MountTakesEffect(t: Tree, ms: seq<Mount>, m: Mount, cur: nat, parts: seq<string>, rest: seq<string>)
    requires cur != 0 && MountsOk(ms) && m.root != 0 && parts != []
    requires Resolve(t, ms, cur, parts) == m.point != 0
    requires m.point !in Visits(t, ms, cur, parts[..|parts| - 1])
    requires !IsMountpoint(ms, Raw(t, Resolve(t, ms, cur, parts[..|parts| - 1]), parts[|parts| - 1]))
    ensures Resolve(t, ms + [m], cur, parts + rest) == Resolve(t, ms + [m], m.root, rest)
  {
    MountSeenAtEnd(t, ms, m, cur, parts);
    ResolveConcat(t, ms + [m], cur, parts, rest);
  }

  /** Mounting a second time at the same path is ignored: the path keeps leading
      to the first mounted root. */
  lemma RemountIsIgnored(t: Tree, ms: seq<Mount>, m: Mount, root2: nat, cur: nat, parts: seq<string>)
    requires cur != 0 && MountsOk(ms) && m.root != 0 && root2 != 0 && parts != []
    requires Resolve(t, ms, cur, parts) == m.point != 0
    requires m.point !in Visits(t, ms, cur, parts[..|parts| - 1])
    requires !IsMountpoint(ms, Raw(t, Resolve(t, ms, cur, parts[..|parts| - 1]), parts[|parts| - 1]))
    requires m.root !in Visits(t, ms + [m], cur, parts[..|parts| - 1])
    ensures Resolve(t, ms + [m], cur, parts) == m.root
    ensures Resolve(t, ms + [m] + [Mount(m.root, root2)], cur, parts) == m.root
  {
    var k := |parts| - 1;
    var p, q := parts[..k], [parts[k]];
    MountSeenAtEnd(t, ms, m, cur, parts);
    MountUnseen(t, ms, m, cur, p);
    assert parts == p + q && q[1..] == [];
    ResolveConcat(t, ms, cur, p, q);
    var last := Raw(t, Resolve(t, ms, cur, p), q[0]);
    CheckMountAppend(ms, m, last);
    assert (ms + [m])[|ms|].point == last;
    MountSeenAtEnd(t, ms + [m], Mount(m.root, root2), cur, parts);
  }

  /** A tree with the one path /a/b. */
  function TwoLevels(): Tree {
    Tree(n => n in {1, 2}, (n, part) => if n == 1 && part == "a" then 2 else if n == 2 && part == "b" then 3 else 0)
  }

  /** Mounting twice at /a: the second root is never reached. */
  lemma DoubleMount()
    ensures var t, once, twice := TwoLevels(), [Mount(2, 8)], [Mount(2, 8), Mount(8, 9)];
      && Resolve(t, [], 1, ["a"]) == 2
      && Resolve(t, once, 1, ["a"]) == 8
      && Resolve(t, twice, 1, ["a"]) == 8
  {
    var t := TwoLevels();
    assert ["a"][1..] == [];
    assert CheckMount([Mount(2, 8)], 2) == 8 && CheckMount([Mount(2, 8), Mount(8, 9)], 2) == 8;
  }

  /** With the root mounted again at /a/b, the path /a/b/a meets its own end on
      the way: after a mount there it no longer resolves, although the node found
      last was no mountpoint. */
  lemma MountOnOwnWay()
    ensures var t, ms, m := TwoLevels(), [Mount(3, 1)], Mount(2, 9);
      && Resolve(t, ms, 1, ["a", "b", "a"]) == 2 && !IsMountpoint(ms, 2)
      && Resolve(t, ms + [m], 1, ["a", "b", "a"]) == 0
  {
    var t, ms, m := TwoLevels(), [Mount(3, 1)], Mount(2, 9);
    var parts := ["a", "b", "a"];
    assert parts[1..] == ["b", "a"] && ["b", "a"][1..] == ["a"] && ["a"][1..] == [];
    assert Resolve(t, ms, 1, ["a"]) == 2;
    assert Resolve(t, ms, 2, ["b", "a"]) == 2;
    assert ms + [m] == [Mount(3, 1), Mount(2, 9)];
    assert CheckMount(ms + [m], 2) == 9;
    assert Resolve(t, ms + [m], 9, ["b", "a"]) == 0;
  }
}

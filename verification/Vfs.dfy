/** The mount table and the path walk of src/kernel/fs/vfs/vfs.c and path.c. */
module Vfs {
  import opened TextRuns
  import opened Paths

  const MAX_MOUNTS := 8
  const PART_SIZE := 64

  /** The character of a C string at index i: NUL behind its contents. */
  function CharAt(s: string, i: nat): char {
    if i < |s| then s[i] else '\0'
  }

  class Vfs {
    var tree: Tree
    const mounts: array<Mount>
    var count: nat
    var root: nat

    ghost predicate Valid()
      reads this, mounts
    {
      mounts.Length == MAX_MOUNTS && count <= MAX_MOUNTS && MountsOk(mounts[..count])
    }

    /** The mount table. */
    ghost function Table(): seq<Mount>
      requires Valid()
      reads this, mounts
    {
      mounts[..count]
    }

    constructor (tree: Tree, root: nat)
      ensures Valid() && Table() == [] && this.tree == tree && this.root == root && fresh(mounts)
    {
      this.tree, this.root, count := tree, root, 0;
      mounts := new Mount[MAX_MOUNTS](_ => Mount(0, 0));
    }

    /** vfs_check_mount. */
    method VfsCheckMount(node: nat) returns (r: nat)
      requires Valid()
      ensures r == CheckMount(Table(), node)
    {
      var i := 0;
      while i < count
        invariant 0 <= i <= count
        invariant CheckMount(Table(), node) == CheckMount(mounts[i..count], node)
      {
        assert mounts[i..count][1..] == mounts[i + 1..count];
        if node == mounts[i].point { return mounts[i].root; }
        i := i + 1;
      }
      return node;
    }

    /** path_resolve. The part buffer is 64 bytes, unchecked, so components must
        be shorter than that. */
    method PathResolve(start: nat, path: string) returns (r: nat)
      requires Valid() && start != 0 && '\0' !in path
      requires ShortParts(Components(path))
      ensures r == Resolve(tree, Table(), start, Components(path))
    {
      var current := start;
      var part := new char[PART_SIZE];
      var i := 0;
      assert path[0..] == path;
      while CharAt(path, i) != '\0'
        invariant 0 <= i <= |path| && current != 0
        invariant ShortParts(Components(path[i..]))
        invariant Resolve(tree, Table(), start, Components(path)) == Resolve(tree, Table(), current, Components(path[i..]))
        decreases |path| - i
      {
        var j := SkipSlashes(path, i);
        if CharAt(path, j) == '\0' {
          i := j;
          break;
        }
        i := CopyPart(path, j, part);
        ghost var name, rest := path[j..i], Components(path[i..]);
        assert Components(path[j..]) == [name] + rest && ([name] + rest)[1..] == rest;
        if !tree.hasLookup(current) { return 0; }
        var found := tree.lookup(current, CString(part[..]));
        if found == 0 { return 0; }
        current := VfsCheckMount(found);
        CheckMountAppend(Table(), Mount(0, 0), found);
        forall k | 0 <= k < |rest| ensures |rest[k]| < PART_SIZE { assert ([name] + rest)[k + 1] == rest[k]; }
      }
      assert path[i..] == "";
      return current;
    }

    /** vfs_lookup. */
    method VfsLookup(path: string) returns (r: nat)
      requires Valid() && '\0' !in path && ShortParts(Components(path))
      ensures r == if root == 0 then 0 else Resolve(tree, Table(), root, Components(path))
    {
      if root == 0 { return 0; }
      r := PathResolve(root, path);
    }

    /** vfs_mount; false stands for the panic on a path that is not found. The
        code does not check that the table has room. */
    method VfsMount(path: string, fsRoot: nat) returns (ok: bool)
      requires Valid() && '\0' !in path && ShortParts(Components(path)) && fsRoot != 0 && count < MAX_MOUNTS
      modifies this`count, mounts
      ensures Valid()
      ensures var mp := if root == 0 then 0 else Resolve(tree, old(Table()), root, Components(path));
        ok == (mp != 0) && Table() == old(Table()) + if ok then [Mount(mp, fsRoot)] else []
    {
      var mp := VfsLookup(path);
      if mp == 0 { return false; }
      ghost var before := Table();
      mounts[count] := Mount(mp, fsRoot);
      count := count + 1;
      assert mounts[..count] == before + [Mount(mp, fsRoot)];
      return true;
    }
  }

  predicate ShortParts(parts: seq<string>) {
    forall i :: 0 <= i < |parts| ==> |parts[i]| < PART_SIZE
  }

  /** The loop over slashes. */
  method SkipSlashes(path: string, i: nat) returns (j: nat)
    requires i <= |path| && '\0' !in path
    ensures i <= j <= |path| && CharAt(path, j) != '/' && Components(path[i..]) == Components(path[j..])
  {
    j := i;
    while CharAt(path, j) == '/'
      invariant i <= j <= |path| && Components(path[i..]) == Components(path[j..])
      decreases |path| - j
    {
      assert path[j..][1..] == path[j + 1..];
      j := j + 1;
    }
  }

  /** The loop that copies one component into the part buffer and ends it. */
  method CopyPart(path: string, i: nat, part: array<char>) returns (j: nat)
    requires i < |path| && path[i] != '/' && '\0' !in path && part.Length == PART_SIZE
    requires ShortParts(Components(path[i..]))
    modifies part
    ensures i < j <= |path| && CString(part[..]) == path[i..j]
    ensures Components(path[i..]) == [path[i..j]] + Components(path[j..])
  {
    ghost var n := RunLength(path[i..], '/');
    assert path[i..][..n] == path[i..i + n] && path[i..][n..] == path[i + n..];
    assert Components(path[i..])[0] == path[i..i + n];
    j := i;
    var k := 0;
    while CharAt(path, j) != '\0' && CharAt(path, j) != '/'
      invariant i <= j <= i + n && k == j - i && part[..k] == path[i..j]
      invariant j < i + n ==> path[j] != '/'
      decreases |path| - j
    {
      InRun(path, i, j, '/');
      part[k] := path[j];
      k, j := k + 1, j + 1;
      InRun(path, i, j, '/');
    }
    part[k] := '\0';
    assert j == i + n;
    assert part[..][..k] == path[i..j];
    CStringPrefix(part[..], k);
  }
}

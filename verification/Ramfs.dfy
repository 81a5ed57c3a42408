/** Nodes of the RAM file system of src/kernel/fs/ramfs/ramfs.c. */
module Ramfs {
  import opened FileSpec

  const MAX_CHILDREN := 32

  /** strcmp on C strings: zero exactly for equal contents. */
  method Strcmp(a: string, b: string) returns (r: int)
    requires '\0' !in a && '\0' !in b
    ensures r == 0 <==> a == b
  {
    var i := 0;
    while i < |a| && i < |b|
      invariant 0 <= i <= |a| && i <= |b| && a[..i] == b[..i]
    {
      if a[i] != b[i] { return a[i] as int - b[i] as int; }
      i := i + 1;
    }
    var x := if i < |a| then a[i] else '\0';
    var y := if i < |b| then b[i] else '\0';
    assert a[..i] == b[..i] && (i < |a| ==> a[i] in a) && (i < |b| ==> b[i] in b);
    assert i == |a| && i == |b| ==> a == a[..i] && b == b[..i];
    return x as int - y as int;
  }

  /** strcpy of a C string. */
  method Strcpy(dest: array<char>, src: string)
    requires |src| < dest.Length && '\0' !in src
    modifies dest
    ensures dest[..|src|] == src && dest[|src|] == '\0' && dest[|src| + 1..] == old(dest[|src| + 1..])
  {
    var k := 0;
    while k < |src|
      invariant 0 <= k <= |src| && dest[..k] == src[..k] && dest[|src|..] == old(dest[|src|..])
    {
      dest[k] := src[k];
      k := k + 1;
    }
    assert dest[|src| + 1..] == dest[|src|..][1..];
    dest[k] := '\0';
  }

  /** memcpy between different buffers, byte by byte. */
  method Memcpy(dest: array<char>, d: nat, src: array<char>, s: nat, n: nat)
    requires d + n <= dest.Length && s + n <= src.Length && dest != src
    modifies dest
    ensures dest[..] == old(dest[..d]) + src[s..s + n] + old(dest[d + n..])
  {
    var k := 0;
    while k < n
      invariant 0 <= k <= n
      invariant dest[..d + k] == old(dest[..d]) + src[s..s + k]
      invariant dest[d + k..] == old(dest[d + k..])
    {
      assert old(dest[d + k..])[1..] == old(dest[d + k + 1..]);
      dest[d + k] := src[s + k];
      k := k + 1;
      assert dest[..d + k] == dest[..d + k - 1] + [src[s + k - 1]];
    }
    assert dest[..] == dest[..d + n] + dest[d + n..];
  }

  /** What a read delivers, as a slice of the whole buffer. */
  lemma ReadSlice(d: seq<char>, size: nat, offset: nat, n: nat, count: nat)
    requires offset < size <= |d| && count == if offset + n > size then size - offset else n
    ensures ReadAt(d[..size], offset, n) == d[offset..offset + count]
  {
  }

  class RamNode {
    const name: string
    const isDir: bool
    const parent: RamNode?
    const ops: nat
    var data: array?<char>
    var size: nat
    var capacity: nat
    var children: seq<RamNode>

    ghost predicate Valid()
      reads this
    {
      && size <= capacity && |children| <= MAX_CHILDREN
      && (if data == null then capacity == 0 else data.Length == capacity)
    }

    /** The file's bytes. */
    ghost function Contents(): string
      requires Valid()
      reads this, data
    {
      if data == null then "" else data[..size]
    }

    /** A zeroed node; `ops` stands for the address of its operations table. */
    constructor (name: string, isDir: bool, parent: RamNode?, ops: nat)
      ensures Valid() && Contents() == "" && data == null && children == []
      ensures this.name == name && this.isDir == isDir && this.parent == parent && this.ops == ops
    {
      this.name, this.isDir, this.parent, this.ops := name, isDir, parent, ops;
      data, size, capacity, children := null, 0, 0, [];
    }

    /** ramfs_lookup: the first child of that name. */
    method Lookup(part: string) returns (r: RamNode?)
      requires Valid() && '\0' !in part && forall c :: c in children ==> '\0' !in c.name
      ensures r == ChildNamed(children, part)
    {
      var i := 0;
      while i < |children|
        invariant 0 <= i <= |children| && ChildNamed(children, part) == ChildNamed(children[i..], part)
      {
        assert children[i..][1..] == children[i + 1..];
        var c := Strcmp(children[i].name, part);
        if c == 0 { return children[i]; }
        i := i + 1;
      }
      return null;
    }

    /** ramfs_create: a new child behind the others, linked to its parent and with
        its parent's operations, or -1 when there is no room.
        The allocation is taken to succeed. */
    method Create(part: string, isDir: bool) returns (r: int, child: RamNode?)
      requires Valid()
      modifies this`children
      ensures Valid() && r == if |old(children)| >= MAX_CHILDREN then -1 else 0
      ensures r == -1 ==> child == null && children == old(children)
      ensures r == 0 ==> child != null && fresh(child) && child.Valid() && child.Contents() == "" && child.children == []
                         && child.name == part && child.isDir == isDir && child.parent == this && child.ops == ops
                         && children == old(children) + [child]
    {
      if |children| >= MAX_CHILDREN { return -1, null; }
      var node := new RamNode(part, isDir, this, ops);
      children := children + [node];
      return 0, node;
    }

    /** The growth step of ramfs_write: a buffer of exactly the needed size. */
    method Grow(needed: nat)
      requires Valid() && needed > capacity
      modifies this`data, this`capacity
      ensures Valid() && capacity == needed && Contents() == old(Contents()) && fresh(data)
    {
      var newData := new char[needed];
      if data != null { Memcpy(newData, 0, data, 0, size); }
      assert newData[..size] == Contents();
      data := newData;
      capacity := needed;
    }

    /** The copying step of ramfs_write, when the buffer is large enough. */
    method CopyIn(offset: nat, buffer: array<char>, n: nat)
      requires Valid() && n <= buffer.Length && buffer != data && offset + n <= capacity
      modifies this`size, data
      ensures Valid() && data == old(data) && Written(old(Contents()), offset, old(buffer[..n]), Contents())
    {
      ghost var c, b := Contents(), buffer[..n];
      assert buffer[0..n] == b;
      if n > 0 {
        Memcpy(data, offset, buffer, 0, n);
        assert forall k :: 0 <= k < n ==> data[offset + k] == b[k];
        assert forall i :: 0 <= i < |c| && !(offset <= i < offset + n) ==> data[i] == c[i];
      }
      if offset + n > size { size := offset + n; }
      assert n > 0 ==> Contents()[offset..offset + n] == b;
    }

    /** ramfs_write. A directory is refused. */
    method Write(offset: nat, buffer: array<char>, n: nat) returns (r: int)
      requires Valid() && n <= buffer.Length && buffer != data
      modifies this`data, this`size, this`capacity, data
      ensures Valid() && (data == old(data) || fresh(data))
      ensures isDir ==> r == -1 && data == old(data) && Contents() == old(Contents())
      ensures !isDir ==> r == n && Written(old(Contents()), offset, old(buffer[..n]), Contents())
    {
      if isDir { return -1; }
      if offset + n > capacity { Grow(offset + n); }
      CopyIn(offset, buffer, n);
      return n;
    }

    /** ramfs_read. */
    method Read(offset: nat, buffer: array<char>, n: nat) returns (r: nat)
      requires Valid() && n <= buffer.Length && buffer != data
      modifies buffer
      ensures r == |ReadAt(Contents(), offset, n)| <= n
      ensures buffer[..] == ReadAt(Contents(), offset, n) + old(buffer[r..])
    {
      if offset >= size { return 0; }
      var count := n;
      if offset + count > size { count := size - offset; }
      ReadSlice(data[..], size, offset, n, count);
      assert data[offset..offset + count] == data[..][offset..offset + count];
      Memcpy(buffer, 0, data, offset, count);
      return count;
    }
  }

  function ChildNamed(cs: seq<RamNode>, part: string): RamNode? {
    if cs == [] then null
    else if cs[0].name == part then cs[0]
    else ChildNamed(cs[1..], part)
  }

  /** A new child is found under its name exactly when no earlier child has it. */
  lemma {:induction false} CreatedIsFound(cs: seq<RamNode>, child: RamNode, part: string)
    ensures ChildNamed(cs + [child], part) ==
      if ChildNamed(cs, part) != null then ChildNamed(cs, part) else if child.name == part then child else null
  {
    if cs != [] {
      assert (cs + [child])[1..] == cs[1..] + [child];
      CreatedIsFound(cs[1..], child, part);
    }
  }
}

/** The descriptor table of src/kernel/fs/fd/fd.c over RAM file system nodes. */
module FileDescriptors {
  import opened FileSpec
  import opened Ramfs
  import opened Vfs
  import opened FileTree

  const MAX_FDS := 32

  datatype FileDesc = FileDesc(used: bool, node: RamNode?, offset: nat)

  predicate InTable(fd: int) {
    0 <= fd < MAX_FDS
  }

  class FdTable {
    const table: array<FileDesc>

    ghost predicate Valid()
      reads this, table
    {
      table.Length == MAX_FDS && forall i :: 0 <= i < MAX_FDS && table[i].used ==> table[i].node != null
    }

    /** The descriptor is open. */
    predicate IsOpen(fd: int)
      requires table.Length == MAX_FDS
      reads this, table
    {
      InTable(fd) && table[fd].used
    }

    /** Some descriptor is left. */
    ghost predicate SomeUnused()
      requires table.Length == MAX_FDS
      reads this, table
    {
      exists i :: 0 <= i < MAX_FDS && !table[i].used
    }

    /** fd_init. */
    constructor ()
      ensures Valid() && fresh(table) && forall i :: 0 <= i < MAX_FDS ==> !table[i].used
    {
      table := new FileDesc[MAX_FDS](_ => FileDesc(false, null, 0));
    }

    /** fd_alloc: the lowest unused descriptor, now used and at offset 0. */
    method FdAlloc() returns (fd: int)
      requires table.Length == MAX_FDS
      modifies table
      ensures fd == -1 <==> !old(SomeUnused())
      ensures fd == -1 ==> table[..] == old(table[..])
      ensures fd != -1 ==> InTable(fd) && !old(table[fd]).used && (forall i :: 0 <= i < fd ==> old(table[i]).used)
                           && table[..] == old(table[..])[fd := old(table[fd]).(used := true, offset := 0)]
    {
      var i := 0;
      while i < MAX_FDS
        invariant 0 <= i <= MAX_FDS && forall k :: 0 <= k < i ==> table[k].used
      {
        if !table[i].used {
          table[i] := table[i].(used := true, offset := 0);
          return i;
        }
        i := i + 1;
      }
      return -1;
    }

    /** sys_open: the lowest unused descriptor, for the node that the path names;
        or -1 when it names none or no descriptor is left. */
    method SysOpen(vfs: Vfs, nodes: map<nat, RamNode>, path: string) returns (fd: int)
      requires Valid() && Behind(vfs, nodes) && PathOk(path)
      modifies table
      ensures Valid() && Behind(vfs, nodes)
      ensures fd == -1 <==> Target(vfs, nodes, path) == null || !old(SomeUnused())
      ensures fd == -1 ==> table[..] == old(table[..])
      ensures fd != -1 ==> InTable(fd) && !old(table[fd]).used && (forall i :: 0 <= i < fd ==> old(table[i]).used)
                           && table[..] == old(table[..])[fd := FileDesc(true, Target(vfs, nodes, path), 0)]
    {
      var node := LookupNode(vfs, nodes, path);
      if node == null { return -1; }
      ghost var rows := table[..];
      fd := FdAlloc();
      if fd < 0 { return -1; }
      table[fd] := table[fd].(node := node);
      assert table[..] == rows[fd := FileDesc(true, node, 0)];
    }

    /** The objects behind a descriptor. */
    ghost function Footprint(fd: int): set<object>
      requires Valid()
      reads this, table, set i | 0 <= i < table.Length && table[i].node != null :: table[i].node
    {
      if !IsOpen(fd) then {}
      else if table[fd].node.data == null then {table[fd].node}
      else {table[fd].node, table[fd].node.data}
    }

    /** The file and the buffer of a transfer do not overlap. */
    ghost predicate Ready(fd: int, buffer: array<char>)
      requires Valid()
      reads this, table, set i | 0 <= i < table.Length && table[i].node != null :: table[i].node
    {
      IsOpen(fd) ==> table[fd].node.Valid() && buffer !in Footprint(fd) && table !in Footprint(fd)
    }

    /** Contents and offset seen through an open descriptor. */
    ghost function View(fd: int): Open
      requires Valid() && IsOpen(fd) && table[fd].node.Valid()
      reads this, table, table[fd].node, table[fd].node.data
    {
      Open(table[fd].node.Contents(), table[fd].offset)
    }

    /** sys_write. */
    method SysWrite(fd: int, buffer: array<char>, n: nat) returns (r: int)
      requires Valid() && n <= buffer.Length && Ready(fd, buffer)
      modifies table, Footprint(fd)
      ensures Valid()
      ensures !old(IsOpen(fd)) || old(table[fd]).node.isDir ==> r == -1 && table[..] == old(table[..])
      ensures old(IsOpen(fd)) ==>
        && old(table[fd]).node.Valid()
        && (old(table[fd]).node.data == old(table[fd].node.data) || fresh(old(table[fd]).node.data))
      ensures old(IsOpen(fd)) && old(table[fd]).node.isDir ==> View(fd) == old(View(fd))
      ensures old(IsOpen(fd)) && !old(table[fd]).node.isDir ==>
        && r == n && table[..] == old(table[..])[fd := old(table[fd]).(offset := old(table[fd]).offset + n)]
        && Written(old(View(fd)).contents, old(View(fd)).offset, old(buffer[..n]), View(fd).contents)
        && (old(View(fd)).offset <= |old(View(fd)).contents| ==> View(fd) == WriteOne(old(View(fd)), old(buffer[..n])))
    {
      if fd < 0 || fd >= MAX_FDS { return -1; }
      if !table[fd].used { return -1; }
      ghost var before, rows := View(fd), table[..];
      r := table[fd].node.Write(table[fd].offset, buffer, n);
      if r > 0 {
        table[fd] := table[fd].(offset := table[fd].offset + r);
        assert table[..] == rows[fd := rows[fd].(offset := rows[fd].offset + r)];
      }
      if before.offset <= |before.contents| {
        WrittenIsOverwrite(before.contents, before.offset, old(buffer[..n]), View(fd).contents);
      }
    }

    /** sys_read. */
    method SysRead(fd: int, buffer: array<char>, n: nat) returns (r: int)
      requires Valid() && n <= buffer.Length && Ready(fd, buffer)
      modifies table, buffer
      ensures Valid()
      ensures !old(IsOpen(fd)) ==> r == -1 && table[..] == old(table[..]) && buffer[..] == old(buffer[..])
      ensures old(IsOpen(fd)) ==>
        var bytes := ReadAt(old(View(fd)).contents, old(View(fd)).offset, n);
        && r == |bytes| <= n && buffer[..] == bytes + old(buffer[..])[r..]
        && table[..] == old(table[..])[fd := old(table[fd]).(offset := old(table[fd]).offset + r)]
    {
      if fd < 0 || fd >= MAX_FDS { return -1; }
      if !table[fd].used { return -1; }
      r := table[fd].node.Read(table[fd].offset, buffer, n);
      if r > 0 { table[fd] := table[fd].(offset := table[fd].offset + r); }
    }

    /** sys_close. */
    method SysClose(fd: int)
      requires Valid()
      modifies table
      ensures Valid() && table[..] == if InTable(fd) then old(table[..])[fd := old(table[fd]).(used := false)] else old(table[..])
    {
      if fd >= 0 && fd < MAX_FDS { table[fd] := table[fd].(used := false); }
    }

    /** sys_seek. */
    method SysSeek(fd: int, offset: nat) returns (r: int)
      requires Valid()
      modifies table
      ensures Valid() && r == if old(IsOpen(fd)) then 0 else -1
      ensures table[..] == if old(IsOpen(fd)) then old(table[..])[fd := old(table[fd]).(offset := offset)] else old(table[..])
    {
      if fd < 0 || fd >= MAX_FDS { return -1; }
      if !table[fd].used { return -1; }
      table[fd] := table[fd].(offset := offset);
      return 0;
    }
  }
}

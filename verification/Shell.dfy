/** Argument parsing and the file commands of src/kernel/shell/shell.c. */
module Shell {
  import opened TextRuns
  import opened FileSpec
  import opened Ramfs
  import opened FileDescriptors
  import opened Vfs
  import opened FileTree

  const MAX_ARGS := 8

  /** The first k elements, or all of them. */
  function FirstOf(parts: seq<string>, k: nat): (r: seq<string>)
    ensures |r| == if |parts| < k then |parts| else k
    ensures forall i :: 0 <= i < |r| ==> r[i] == parts[i]
  {
    if |parts| <= k then parts else parts[..k]
  }

  /** Token t stands at position p of the buffer as a terminated string. */
  ghost predicate TokenAt(b: seq<char>, p: nat, t: string) {
    p + |t| < |b| && b[p..p + |t|] == t && b[p + |t|] == '\0'
  }

  lemma TokenIsCString(b: seq<char>, p: nat, t: string)
    requires TokenAt(b, p, t) && '\0' !in t
    ensures CString(b[p..]) == t
  {
    assert b[p..][..|t|] == t;
    CStringPrefix(b[p..], |t|);
  }

  /** From position p on, the buffer still holds the line and its NUL. */
  ghost predicate HoldsFrom(b: seq<char>, line: string, p: nat) {
    p <= |line| < |b| && b[p..|line|] == line[p..] && b[|line|] == '\0' && '\0' !in line
  }

  lemma HoldsAt(b: seq<char>, line: string, p: nat, i: nat)
    requires HoldsFrom(b, line, p) && p <= i <= |line|
    ensures if i < |line| then b[i] == line[i] != '\0' else b[i] == '\0'
    ensures HoldsFrom(b, line, i)
  {
    if i < |line| {
      assert b[p..|line|][i - p] == line[p..][i - p];
      assert line[i] in line;
    }
    assert b[i..|line|] == b[p..|line|][i - p..] == line[p..][i - p..] == line[i..];
  }

  /** The loop over leading spaces. */
  method SkipSpaces(input: array<char>, ghost line: string, p: nat) returns (q: nat)
    requires HoldsFrom(input[..], line, p)
    ensures p <= q <= |line| && input[q] != ' ' && Runs(line[q..], ' ') == Runs(line[p..], ' ')
  {
    q := p;
    HoldsAt(input[..], line, p, p);
    while input[q] == ' '
      invariant p <= q <= |line| && Runs(line[q..], ' ') == Runs(line[p..], ' ')
      decreases |line| - q
    {
      HoldsAt(input[..], line, p, q);
      assert line[q..][1..] == line[q + 1..];
      q := q + 1;
    }
  }

  /** The loop to the end of a token. */
  method EndOfToken(input: array<char>, ghost line: string, p: nat) returns (e: nat)
    requires HoldsFrom(input[..], line, p) && p < |line| && line[p] != ' '
    ensures p < e <= |line| && (e < |line| ==> line[e] == ' ')
    ensures input[e] == (if e < |line| then ' ' else '\0') && input[p..e] == line[p..e]
    ensures Runs(line[p..], ' ') == [line[p..e]] + Runs(line[e..], ' ')
  {
    ghost var n := RunLength(line[p..], ' ');
    assert line[p..][..n] == line[p..p + n] && line[p..][n..] == line[p + n..];
    e := p;
    HoldsAt(input[..], line, p, p);
    while input[e] != '\0' && input[e] != ' '
      invariant p <= e <= p + n && input[p..e] == line[p..e]
      decreases p + n - e
    {
      HoldsAt(input[..], line, p, e);
      InRun(line, p, e, ' ');
      e := e + 1;
    }
    HoldsAt(input[..], line, p, e);
    InRun(line, p, e, ' ');
    assert e == p + n;
  }

  /** Tokens already found: each stands terminated before p, or ends the line. */
  ghost predicate Found(b: seq<char>, line: string, argv: seq<nat>, done: seq<string>, p: nat) {
    |argv| == |done| && forall k :: 0 <= k < |done| ==>
      TokenAt(b, argv[k], done[k]) && '\0' !in done[k]
      && (argv[k] + |done[k]| < p || (argv[k] + |done[k]| == |line| && p == |line|))
  }

  /** Ending the token [p..e) in place keeps what was found and adds it. */
  lemma EndToken(b: seq<char>, line: string, argv: seq<nat>, done: seq<string>, p: nat, e: nat)
    requires HoldsFrom(b, line, p) && Found(b, line, argv, done, p) && p < e <= |line|
    ensures var q := if e < |line| then e + 1 else e;
      var b' := if e < |line| then b[e := '\0'] else b;
      HoldsFrom(b', line, q) && Found(b', line, argv + [p], done + [line[p..e]], q)
  {
    var q := if e < |line| then e + 1 else e;
    var b' := if e < |line| then b[e := '\0'] else b;
    HoldsAt(b, line, p, e);
    HoldsAt(b, line, p, q);
    assert b'[q..|line|] == b[q..|line|];
    assert line[p..][..e - p] == line[p..e];
    assert b'[p..e] == b[p..e] == b[p..|line|][..e - p] == line[p..e];
    assert '\0' !in line[p..e];
    forall k | 0 <= k < |done| ensures TokenAt(b', argv[k], done[k]) {
      assert b'[argv[k]..argv[k] + |done[k]|] == b[argv[k]..argv[k] + |done[k]|];
    }
  }

  /** The rest of one round: the token that starts at q is ended in place. */
  method TakeToken(input: array<char>, ghost line: string, q: nat, ghost argv: seq<nat>, ghost done: seq<string>)
    returns (p: nat, ghost e: nat)
    requires HoldsFrom(input[..], line, q) && Found(input[..], line, argv, done, q) && q < |line| && line[q] != ' '
    requires Runs(line, ' ') == done + Runs(line[q..], ' ')
    modifies input
    ensures q < e <= p <= |line|
    ensures HoldsFrom(input[..], line, p) && Found(input[..], line, argv + [q], done + [line[q..e]], p)
    ensures Runs(line, ' ') == done + [line[q..e]] + Runs(line[p..], ' ')
  {
    ghost var before := input[..];
    var stop := EndOfToken(input, line, q);
    e := stop;
    EndToken(before, line, argv, done, q, e);
    RunsStep(line, done, q, e);
    p := stop;
    if input[stop] != '\0' {
      input[stop] := '\0';
      p := stop + 1;
    }
  }

  /** parse_arguments: the input buffer holds `line` as a C string. Afterwards
      argv points at the first 8 runs between spaces, each terminated in place. */
  method ParseArguments(input: array<char>, ghost line: string) returns (argv: seq<nat>)
    requires HoldsFrom(input[..], line, 0)
    modifies input
    ensures var words := Runs(line, ' ');
      && |argv| == (if |words| < 8 then |words| else 8)
      && forall k :: 0 <= k < |argv| ==> argv[k] < input.Length && CString(input[..][argv[k]..]) == words[k]
  {
    argv := [];
    var p := 0;
    ghost var done: seq<string> := [];
    assert line[0..] == line;
    HoldsAt(input[..], line, 0, 0);
    while input[p] != '\0' && |argv| < MAX_ARGS
      invariant p <= |line| && HoldsFrom(input[..], line, p)
      invariant Found(input[..], line, argv, done, p) && |done| <= MAX_ARGS
      invariant Runs(line, ' ') == done + Runs(line[p..], ' ')
      decreases |line| - p, MAX_ARGS - |argv|
    {
      HoldsAt(input[..], line, p, p);
      ghost var before := input[..];
      var q := SkipSpaces(input, line, p);
      HoldsAt(input[..], line, p, q);
      if input[q] == '\0' {
        p := q;
        break;
      }
      FoundLater(before, line, argv, done, p, q);
      ghost var e;
      p, e := TakeToken(input, line, q, argv, done);
      argv, done := argv + [q], done + [line[q..e]];
    }
    HoldsAt(input[..], line, p, p);
    if p == |line| { assert Runs(line[p..], ' ') == []; }
    assert done == FirstOf(Runs(line, ' '), MAX_ARGS);
    forall k | 0 <= k < |argv| ensures argv[k] < input.Length && CString(input[..][argv[k]..]) == done[k] {
      TokenIsCString(input[..], argv[k], done[k]);
    }
  }

  lemma SkipOne(s: string, sep: char)
    requires s != "" && s[0] == sep
    ensures Runs(s, sep) == Runs(s[1..], sep)
  {
  }

  lemma PutBetween(all: seq<string>, done: seq<string>, t: string, rest: seq<string>)
    requires all == done + ([t] + rest)
    ensures all == done + [t] + rest
  {
  }

  /** One more token is split off the line. */
  lemma RunsStep(line: string, done: seq<string>, q: nat, e: nat)
    requires q < e <= |line| && (e < |line| ==> line[e] == ' ')
    requires Runs(line, ' ') == done + Runs(line[q..], ' ')
    requires Runs(line[q..], ' ') == [line[q..e]] + Runs(line[e..], ' ')
    ensures e == |line| ==> Runs(line, ' ') == done + [line[q..e]] + Runs(line[e..], ' ')
    ensures e < |line| ==> Runs(line, ' ') == done + [line[q..e]] + Runs(line[e + 1..], ' ')
  {
    var t, rest := line[q..e], line[e..];
    PutBetween(Runs(line, ' '), done, t, Runs(rest, ' '));
    if e < |line| {
      assert rest[1..] == line[e + 1..];
      SkipOne(rest, ' ');
    }
  }

  /** Moving on over spaces keeps what was found. */
  lemma FoundLater(b: seq<char>, line: string, argv: seq<nat>, done: seq<string>, p: nat, q: nat)
    requires Found(b, line, argv, done, p) && p <= q < |line|
    ensures Found(b, line, argv, done, q)
  {
  }

  /** parse_arguments inverts joining up to 8 tokens by single spaces. */
  lemma ParsingUndoesJoining(tokens: seq<string>)
    requires |tokens| <= MAX_ARGS && forall i :: 0 <= i < |tokens| ==> tokens[i] != "" && ' ' !in tokens[i]
    ensures FirstOf(Runs(Join(tokens, ' '), ' '), MAX_ARGS) == tokens
  {
    SplitUndoesJoin(tokens, ' ');
  }

  // ----- write and rd

  datatype WriteReply = Usage | FileNotFound | Done

  /** A buffer holding the bytes of s. */
  method Bytes(s: string) returns (b: array<char>)
    ensures fresh(b) && b[..] == s
  {
    b := new char[|s|](i requires 0 <= i < |s| => s[i]);
  }

  /** The descriptor table is neither the node nor its buffer. */
  ghost predicate ClearOf(fds: FdTable, node: RamNode?)
    reads node
  {
    node != null ==> (fds.table as object) !in {node as object} && (node.data != null ==> (fds.table as object) != (node.data as object))
  }

  /** `node` is what the path argument names, if there is one. */
  ghost predicate Names(vfs: Vfs, nodes: map<nat, RamNode>, argv: seq<string>, node: RamNode?)
    reads vfs, vfs.mounts, nodes.Values
  {
    && Behind(vfs, nodes)
    && if |argv| < 2 then node == null else PathOk(argv[1]) && node == Target(vfs, nodes, argv[1])
  }

  /** cmd_write: every token is written behind the one before it, with a single
      space between two, from the start of the file. */
  method CmdWrite(fds: FdTable, vfs: Vfs, nodes: map<nat, RamNode>, argv: seq<string>, ghost node: RamNode?)
    returns (reply: WriteReply)
    requires fds.Valid() && Names(vfs, nodes, argv, node) && ClearOf(fds, node) && (node != null ==> node.Valid())
    modifies fds.table, node, if node != null && node.data != null then {node.data} else {}
    ensures fds.Valid() && (node != null ==> node.Valid())
    ensures reply == Usage <==> |argv| < 3
    ensures reply == FileNotFound <==> |argv| >= 3 && (node == null || !old(fds.SomeUnused()))
    ensures reply == Done && !node.isDir ==>
      node.Contents() == Overwrite(old(node.Contents()), 0, Join(argv[2..], ' '))
    ensures (reply != Done && node != null) || (node != null && node.isDir) ==> node.Contents() == old(node.Contents())
    ensures forall i :: 0 <= i < MAX_FDS && old(fds.table[i]).used ==> fds.table[i] == old(fds.table[i])
  {
    if |argv| < 3 { return Usage; }
    var fd := fds.SysOpen(vfs, nodes, argv[1]);
    if fd < 0 { return FileNotFound; }
    var s := fds.SysSeek(fd, 0);
    ghost var text := Join(argv[2..], ' ');
    assert argv[2..][0..] == argv[2..];
    WriteTokens(fds, fd, node, argv[2..], if node.isDir then fds.View(fd) else WriteOne(fds.View(fd), text));
    fds.SysClose(fd);
    return Done;
  }

  /** What is still to be written when the tokens from i on remain. */
  function Remaining(tokens: seq<string>, i: nat): string
    requires i <= |tokens|
  {
    Join(tokens[i..], ' ')
  }

  /** One sys_write of a C string. */
  method WriteString(fds: FdTable, fd: int, ghost node: RamNode, s: string)
    requires fds.Valid() && fds.IsOpen(fd) && fds.table[fd].node == node && node.Valid() && ClearOf(fds, node)
    requires fds.table[fd].offset <= |node.Contents()|
    modifies fds.table, node, if node.data != null then {node.data} else {}
    ensures fds.Valid() && fds.IsOpen(fd) && fds.table[fd].node == node && node.Valid() && ClearOf(fds, node)
    ensures node.data == old(node.data) || fresh(node.data)
    ensures fds.View(fd) == if node.isDir then old(fds.View(fd))
                            else WriteOne(old(fds.View(fd)), s)
    ensures forall i :: 0 <= i < MAX_FDS && i != fd ==> fds.table[i] == old(fds.table[i])
  {
    var bytes := Bytes(s);
    assert bytes[..|s|] == s;
    var r := fds.SysWrite(fd, bytes, |s|);
  }

  /** One round of cmd_write's loop: a token, and a space unless it is the last. */
  method WriteToken(fds: FdTable, fd: int, ghost node: RamNode, token: string, last: bool)
    requires fds.Valid() && fds.IsOpen(fd) && fds.table[fd].node == node && node.Valid() && ClearOf(fds, node)
    requires fds.table[fd].offset <= |node.Contents()|
    modifies fds.table, node, if node.data != null then {node.data} else {}
    ensures fds.Valid() && fds.IsOpen(fd) && fds.table[fd].node == node && node.Valid() && ClearOf(fds, node)
    ensures node.data == old(node.data) || fresh(node.data)
    ensures fds.View(fd) == if node.isDir then old(fds.View(fd))
                            else WriteOne(old(fds.View(fd)), if last then token else token + " ")
    ensures forall i :: 0 <= i < MAX_FDS && i != fd ==> fds.table[i] == old(fds.table[i])
  {
    ghost var o := fds.View(fd);
    WriteString(fds, fd, node, token);
    if !last {
      WriteString(fds, fd, node, " ");
      WriteOneTwice(o, token, " ");
    }
  }

  /** Writing the tokens from i on still has to bring `now` to `goal`. */
  ghost predicate Owes(now: Open, isDir: bool, tokens: seq<string>, i: nat, goal: Open) {
    i <= |tokens| && now.offset <= |now.contents|
    && if isDir then now == goal else WriteOne(now, Remaining(tokens, i)) == goal
  }

  /** One round of the loop of cmd_write. */
  method WriteRound(fds: FdTable, fd: int, ghost node: RamNode, tokens: seq<string>, i: nat, ghost goal: Open)
    requires fds.Valid() && fds.IsOpen(fd) && fds.table[fd].node == node && node.Valid() && ClearOf(fds, node)
    requires i < |tokens| && Owes(fds.View(fd), node.isDir, tokens, i, goal)
    modifies fds.table, node, if node.data != null then {node.data} else {}
    ensures fds.Valid() && fds.IsOpen(fd) && fds.table[fd].node == node && node.Valid() && ClearOf(fds, node)
    ensures node.data == old(node.data) || fresh(node.data)
    ensures Owes(fds.View(fd), node.isDir, tokens, i + 1, goal)
    ensures forall k :: 0 <= k < MAX_FDS && k != fd ==> fds.table[k] == old(fds.table[k])
  {
    WriteThenRest(fds.View(fd), tokens, i);
    WriteToken(fds, fd, node, tokens[i], i == |tokens| - 1);
  }

  /** The loop of cmd_write. */
  method WriteTokens(fds: FdTable, fd: int, ghost node: RamNode, tokens: seq<string>, ghost goal: Open)
    requires fds.Valid() && fds.IsOpen(fd) && fds.table[fd] == FileDesc(true, node, 0) && node.Valid() && ClearOf(fds, node)
    requires Owes(fds.View(fd), node.isDir, tokens, 0, goal)
    modifies fds.table, node, if node.data != null then {node.data} else {}
    ensures fds.Valid() && fds.IsOpen(fd) && fds.table[fd].node == node && node.Valid()
    ensures fds.View(fd) == goal
    ensures forall i :: 0 <= i < MAX_FDS && i != fd ==> fds.table[i] == old(fds.table[i])
  {
    var i := 0;
    while i < |tokens|
      invariant 0 <= i <= |tokens| && fds.Valid() && fds.IsOpen(fd) && fds.table[fd].node == node && node.Valid()
      invariant ClearOf(fds, node) && (node.data == old(node.data) || fresh(node.data))
      invariant Owes(fds.View(fd), node.isDir, tokens, i, goal)
      invariant forall k :: 0 <= k < MAX_FDS && k != fd ==> fds.table[k] == old(fds.table[k])
    {
      WriteRound(fds, fd, node, tokens, i, goal);
      i := i + 1;
    }
    NothingRemains(fds.View(fd), tokens);
  }

  lemma NothingRemains(o: Open, tokens: seq<string>)
    requires o.offset <= |o.contents|
    ensures WriteOne(o, Remaining(tokens, |tokens|)) == o
  {
    assert Remaining(tokens, |tokens|) == "";
    assert Overwrite(o.contents, o.offset, "") == o.contents;
  }

  /** Writing one token of the rest first makes no difference. */
  lemma WriteThenRest(o: Open, tokens: seq<string>, i: nat)
    requires o.offset <= |o.contents| && i < |tokens|
    ensures var piece := if i == |tokens| - 1 then tokens[i] else tokens[i] + " ";
      WriteOne(WriteOne(o, piece), Remaining(tokens, i + 1)) == WriteOne(o, Remaining(tokens, i))
  {
    var piece := if i == |tokens| - 1 then tokens[i] else tokens[i] + " ";
    assert tokens[i..][1..] == tokens[i + 1..];
    assert Remaining(tokens, i) == piece + Remaining(tokens, i + 1);
    WriteOneTwice(o, piece, Remaining(tokens, i + 1));
  }

  /** cmd_rd: the text printed, from a zeroed 256-byte buffer; not ok for the
      usage and file-not-found messages. */
  method CmdRd(fds: FdTable, vfs: Vfs, nodes: map<nat, RamNode>, argv: seq<string>, ghost node: RamNode?)
    returns (ok: bool, text: string)
    requires fds.Valid() && Names(vfs, nodes, argv, node) && ClearOf(fds, node) && (node != null ==> node.Valid())
    modifies fds.table
    ensures fds.Valid() && (ok ==> |argv| >= 2 && node != null)
    ensures ok ==> text == CString(ReadAt(node.Contents(), 0, 255) + ['\0'])
    ensures ok <==> |argv| >= 2 && node != null && old(fds.SomeUnused())
    ensures forall i :: 0 <= i < MAX_FDS && old(fds.table[i]).used ==> fds.table[i] == old(fds.table[i])
  {
    if |argv| < 2 { return false, ""; }
    var fd := fds.SysOpen(vfs, nodes, argv[1]);
    if fd < 0 { return false, ""; }
    var buffer := new char[256](_ => '\0');
    ghost var zeros := buffer[..];
    var s := fds.SysSeek(fd, 0);
    var read := fds.SysRead(fd, buffer, 255);
    text := "";
    ghost var bytes := ReadAt(node.Contents(), 0, 255);
    if read > 0 {
      text := CString(buffer[..]);
      ReadText(bytes, zeros, buffer[..]);
    }
    fds.SysClose(fd);
    return true, text;
  }

  /** Bytes read into a zeroed buffer that is longer, as a C string. */
  lemma ReadText(bytes: string, zeros: seq<char>, b: seq<char>)
    requires |bytes| < |zeros| && (forall k :: 0 <= k < |zeros| ==> zeros[k] == '\0') && b == bytes + zeros[|bytes|..]
    ensures CString(b) == CString(bytes + ['\0'])
  {
    CStringStops(bytes, b);
  }

  /** Contents end at the first NUL, wherever the buffer ends behind it. */
  lemma {:induction false} CStringStops(a: string, b: seq<char>)
    requires |a| < |b| && b[..|a|] == a && b[|a|] == '\0'
    ensures CString(b) == CString(a + ['\0'])
  {
    if a != "" {
      assert b[0] == b[..|a|][0] == a[0];
      if a[0] != '\0' {
        assert (a + ['\0'])[1..] == a[1..] + ['\0'] && b[1..][..|a| - 1] == b[..|a|][1..];
        CStringStops(a[1..], b[1..]);
      }
    }
  }

  // ----- from a command line

  datatype Execution = Nothing | Wrote(reply: WriteReply) | Printed(ok: bool, text: string) | Other

  /** The arguments of a line. */
  function Arguments(line: string): (args: seq<string>)
    ensures |args| == if |Runs(line, ' ')| < 8 then |Runs(line, ' ')| else 8
    ensures forall k :: 0 <= k < |args| ==> args[k] == Runs(line, ' ')[k]
  {
    FirstOf(Runs(line, ' '), MAX_ARGS)
  }

  /** What the argv pointers into the buffer read as. */
  method ReadArguments(buffer: array<char>, argv: seq<nat>) returns (args: seq<string>)
    requires forall k :: 0 <= k < |argv| ==> argv[k] < buffer.Length
    ensures |args| == |argv| && forall k :: 0 <= k < |argv| ==> args[k] == CString(buffer[..][argv[k]..])
  {
    args := [];
    var k := 0;
    while k < |argv|
      invariant 0 <= k <= |argv| && |args| == k
      invariant forall j :: 0 <= j < k ==> args[j] == CString(buffer[..][argv[j]..])
    {
      args := args + [CString(buffer[..][argv[k]..])];
      k := k + 1;
    }
  }

  /** execute_command, as far as the two file commands go: the line is copied,
      split in place and handed to the command that its first word names. */
  method ExecuteCommand(fds: FdTable, vfs: Vfs, nodes: map<nat, RamNode>, line: string, ghost node: RamNode?)
    returns (e: Execution)
    requires '\0' !in line && |line| < 256
    requires fds.Valid() && Names(vfs, nodes, Arguments(line), node) && ClearOf(fds, node) && (node != null ==> node.Valid())
    modifies fds.table, node, if node != null && node.data != null then {node.data} else {}
    ensures fds.Valid() && (node != null ==> node.Valid())
    ensures var args := Arguments(line);
      && (e == Nothing <==> args == [])
      && (e.Wrote? <==> args != [] && args[0] == "write")
      && (e.Printed? <==> args != [] && args[0] == "rd")
      && (e.Wrote? ==> (e.reply == Usage <==> |args| < 3)
                       && (e.reply == Done <==> |args| >= 3 && node != null && old(fds.SomeUnused())))
      && (e.Printed? ==> (e.ok <==> |args| >= 2 && node != null && old(fds.SomeUnused())))
      && (e == Wrote(Done) && !node.isDir ==> node.Contents() == Overwrite(old(node.Contents()), 0, Join(args[2..], ' ')))
      && (e.Printed? && e.ok ==> e.text == CString(ReadAt(node.Contents(), 0, 255) + ['\0']))
    ensures node != null && e != Wrote(Done) ==> node.Contents() == old(node.Contents())
    ensures forall i :: 0 <= i < MAX_FDS && old(fds.table[i]).used ==> fds.table[i] == old(fds.table[i])
  {
    var buffer := new char[256];
    Strcpy(buffer, line);
    assert buffer[0..|line|] == buffer[..|line|] == line == line[0..];
    var argv := ParseArguments(buffer, line);
    var args := ReadArguments(buffer, argv);
    assert args == Arguments(line);
    if |args| == 0 { return Nothing; }
    if args[0] == "write" {
      var reply := CmdWrite(fds, vfs, nodes, args, node);
      return Wrote(reply);
    }
    if args[0] == "rd" {
      var ok, text := CmdRd(fds, vfs, nodes, args, node);
      return Printed(ok, text);
    }
    return Other;
  }

  /** What ExecuteCommand leaves in the file for such a line: up to six tokens typed
      after `write path`, joined by single spaces, and the old file's tail. */
  lemma LineReachesFile(path: string, tokens: seq<string>, was: string)
    requires path != "" && ' ' !in path && |tokens| <= 6
    requires forall i :: 0 <= i < |tokens| ==> tokens[i] != "" && ' ' !in tokens[i]
    ensures var argv := Arguments(Join(["write", path] + tokens, ' '));
      && argv == ["write", path] + tokens
      && var text := Join(tokens, ' ');
         Overwrite(was, 0, Join(argv[2..], ' ')) == text + if |text| < |was| then was[|text|..] else ""
  {
    var words := ["write", path] + tokens;
    ParsingUndoesJoining(words);
    assert words[2..] == tokens;
    OverwriteFromStart(was, Join(tokens, ' '));
  }
}

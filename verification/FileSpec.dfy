/** File contents and an offset, and what writes and reads do to them. A byte is
    a character with a code below 256. */
module FileSpec {

  /** Contents after the bytes b are written at offset off. */
  function Overwrite(c: string, off: nat, b: string): (r: string)
    requires off <= |c|
    ensures |r| == if off + |b| > |c| then off + |b| else |c|
    ensures r[..off] == c[..off] && r[off..off + |b|] == b
  {
    var r := c[..off] + b + (if off + |b| < |c| then c[off + |b|..] else "");
    assert r[off..off + |b|] == b;
    r
  }

  /** d is c with the bytes b written at off; bytes between the old end and off
      are not determined. */
  ghost predicate Written(c: string, off: nat, b: string, d: string) {
    && |d| == (if off + |b| > |c| then off + |b| else |c|)
    && d[off..off + |b|] == b
    && forall i :: 0 <= i < |c| && !(off <= i < off + |b|) ==> d[i] == c[i]
  }

  /** At or before the end, writing determines the contents. */
  lemma WrittenIsOverwrite(c: string, off: nat, b: string, d: string)
    requires off <= |c|
    ensures Written(c, off, b, d) <==> d == Overwrite(c, off, b)
  {
    var e := Overwrite(c, off, b);
    assert forall i :: off <= i < off + |b| ==> e[i] == e[off..off + |b|][i - off] == b[i - off];
    assert forall i :: 0 <= i < off ==> e[i] == e[..off][i] == c[i];
    if Written(c, off, b, d) {
      forall i | 0 <= i < |d| ensures d[i] == e[i] {
        if off <= i < off + |b| { assert d[off..off + |b|][i - off] == d[i]; }
      }
    }
  }

  /** Bytes that a read of at most n bytes at offset off delivers. */
  function ReadAt(c: string, off: nat, n: nat): (r: string)
    ensures |r| == if off >= |c| then 0 else if n <= |c| - off then n else |c| - off
    ensures forall k :: 0 <= k < |r| ==> r[k] == c[off + k]
  {
    if off >= |c| then "" else if off + n > |c| then c[off..] else c[off..off + n]
  }

  function Flatten(chunks: seq<string>): string {
    if chunks == [] then "" else chunks[0] + Flatten(chunks[1..])
  }

  datatype Open = Open(contents: string, offset: nat)

  /** One write through a descriptor: the offset moves past the bytes. */
  function WriteOne(o: Open, b: string): (r: Open)
    requires o.offset <= |o.contents|
    ensures r.offset <= |r.contents|
  {
    Open(Overwrite(o.contents, o.offset, b), o.offset + |b|)
  }

  function WriteAll(o: Open, chunks: seq<string>): (r: Open)
    requires o.offset <= |o.contents|
    ensures r.offset <= |r.contents|
    decreases |chunks|
  {
    if chunks == [] then o else WriteAll(WriteOne(o, chunks[0]), chunks[1..])
  }

  /** Writing from the start leaves the text followed by the old file's tail. */
  lemma OverwriteFromStart(c: string, t: string)
    ensures Overwrite(c, 0, t) == t + if |t| < |c| then c[|t|..] else ""
  {
    assert c[..0] == "";
  }

  lemma OverwriteTwice(c: string, off: nat, a: string, b: string)
    requires off <= |c|
    ensures Overwrite(Overwrite(c, off, a), off + |a|, b) == Overwrite(c, off, a + b)
  {
    var d := Overwrite(c, off, a);
    var e := Overwrite(d, off + |a|, b);
    var f := Overwrite(c, off, a + b);
    assert |e| == |f|;
    forall i | 0 <= i < |e| ensures e[i] == f[i] {
      if i < off {
        assert d[..off][i] == c[..off][i];
      }
    }
  }

  lemma WriteOneTwice(o: Open, a: string, b: string)
    requires o.offset <= |o.contents|
    ensures WriteOne(WriteOne(o, a), b) == WriteOne(o, a + b)
  {
    OverwriteTwice(o.contents, o.offset, a, b);
  }

  /** Any sequence of chunks has the effect of one write of their concatenation. */
  lemma {:induction false} ChunksAreOneWrite(o: Open, chunks: seq<string>)
    requires o.offset <= |o.contents|
    ensures WriteAll(o, chunks) == WriteOne(o, Flatten(chunks))
    decreases |chunks|
  {
    if chunks == [] {
      assert Overwrite(o.contents, o.offset, "") == o.contents;
    } else {
      OverwriteTwice(o.contents, o.offset, chunks[0], Flatten(chunks[1..]));
      ChunksAreOneWrite(WriteOne(o, chunks[0]), chunks[1..]);
    }
  }

  /** Seeking back and reading returns exactly the bytes written, and every byte
      outside them is the old one. */
  lemma WrittenReadsBack(o: Open, chunks: seq<string>)
    requires o.offset <= |o.contents|
    ensures var b, r := Flatten(chunks), WriteAll(o, chunks);
      && |r.contents| == (if o.offset + |b| > |o.contents| then o.offset + |b| else |o.contents|)
      && ReadAt(r.contents, o.offset, |b|) == b
      && (forall i :: 0 <= i < |o.contents| && !(o.offset <= i < o.offset + |b|) ==> r.contents[i] == o.contents[i])
  {
    ChunksAreOneWrite(o, chunks);
  }
}

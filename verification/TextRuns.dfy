/** C strings, and the maximal runs between separators that path walking and
    argument parsing both split text into. */
module TextRuns {

  /** The contents of a character buffer up to its first NUL. */
  function CString(b: seq<char>): string {
    if b == [] || b[0] == '\0' then "" else [b[0]] + CString(b[1..])
  }

  lemma {:induction false} CStringPrefix(b: seq<char>, j: nat)
    requires j < |b| && b[j] == '\0' && '\0' !in b[..j]
    ensures CString(b) == b[..j]
  {
    if j > 0 {
      assert b[..j][0] == b[0] && b[1..][..j - 1] == b[..j][1..];
      CStringPrefix(b[1..], j - 1);
      assert b[..j] == [b[0]] + b[..j][1..];
    }
  }

  /** Length of the leading run of characters other than sep. */
  function RunLength(s: string, sep: char): (k: nat)
    ensures k <= |s| && sep !in s[..k]
    ensures k < |s| ==> s[k] == sep
  {
    if s == "" || s[0] == sep then 0 else 1 + RunLength(s[1..], sep)
  }

  /** Inside a run there is no separator; right behind it there is. */
  lemma InRun(s: string, i: nat, j: nat, sep: char)
    requires i <= j <= |s| && i < |s|
    ensures j < i + RunLength(s[i..], sep) ==> s[j] != sep
    ensures j == i + RunLength(s[i..], sep) && j < |s| ==> s[j] == sep
  {
    var n := RunLength(s[i..], sep);
    if j < i + n { assert s[i..][..n][j - i] == s[j]; }
  }

  /** The maximal non-empty runs between separators. */
  function Runs(s: string, sep: char): seq<string>
    decreases |s|
  {
    if s == "" then []
    else if s[0] == sep then Runs(s[1..], sep)
    else [s[..RunLength(s, sep)]] + Runs(s[RunLength(s, sep)..], sep)
  }

  lemma {:induction false} RunLengthBeforeSep(a: string, sep: char, b: string)
    ensures RunLength(a + [sep] + b, sep) == RunLength(a, sep)
  {
    var s := a + [sep] + b;
    if a != "" && a[0] != sep {
      assert s[1..] == a[1..] + [sep] + b;
      RunLengthBeforeSep(a[1..], sep, b);
    }
  }

  /** Joining two texts with a separator joins their runs; with empty parts this
      covers repeated, leading and trailing separators. */
  lemma {:induction false} RunsJoin(a: string, sep: char, b: string)
    ensures Runs(a + [sep] + b, sep) == Runs(a, sep) + Runs(b, sep)
    decreases |a|
  {
    var s := a + [sep] + b;
    if a == "" {
      assert s[1..] == b;
    } else if a[0] == sep {
      assert s[1..] == a[1..] + [sep] + b;
      RunsJoin(a[1..], sep, b);
    } else {
      var k := RunLength(a, sep);
      RunLengthBeforeSep(a, sep, b);
      assert s[..k] == a[..k] && s[k..] == a[k..] + [sep] + b;
      RunsJoin(a[k..], sep, b);
    }
  }

  /** A non-empty text without separators is its own only run. */
  lemma RunsOfRun(s: string, sep: char)
    requires sep !in s
    ensures Runs(s, sep) == if s == "" then [] else [s]
  {
    assert RunLength(s, sep) == |s| && s[|s|..] == "" && s[..|s|] == s;
  }

  /** No run contains a separator or is empty. */
  lemma {:induction false} RunsAreRuns(s: string, sep: char)
    ensures forall i :: 0 <= i < |Runs(s, sep)| ==> Runs(s, sep)[i] != "" && sep !in Runs(s, sep)[i]
    decreases |s|
  {
    if s != "" {
      if s[0] == sep { RunsAreRuns(s[1..], sep); }
      else { RunsAreRuns(s[RunLength(s, sep)..], sep); }
    }
  }

  /** Texts joined by one separator each. */
  function Join(parts: seq<string>, sep: char): string {
    if parts == [] then ""
    else if |parts| == 1 then parts[0]
    else parts[0] + [sep] + Join(parts[1..], sep)
  }

  /** One more part goes behind the others and exactly one separator. */
  lemma {:induction false} JoinAppend(parts: seq<string>, sep: char, last: string)
    ensures Join([], sep) == "" && Join([last], sep) == last
    ensures parts != [] ==> Join(parts + [last], sep) == Join(parts, sep) + [sep] + last
    decreases |parts|
  {
    if parts != [] {
      assert (parts + [last])[1..] == parts[1..] + [last];
      JoinAppend(parts[1..], sep, last);
      if |parts| == 1 { assert parts[1..] == []; }
    }
  }

  /** Splitting undoes joining. */
  lemma {:induction false} SplitUndoesJoin(parts: seq<string>, sep: char)
    requires forall i :: 0 <= i < |parts| ==> parts[i] != "" && sep !in parts[i]
    ensures Runs(Join(parts, sep), sep) == parts
    decreases |parts|
  {
    if parts != [] {
      RunsOfRun(parts[0], sep);
      if |parts| > 1 {
        SplitUndoesJoin(parts[1..], sep);
        RunsJoin(parts[0], sep, Join(parts[1..], sep));
      }
    }
  }
}

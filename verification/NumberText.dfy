/** utoa, atoi and atoi_hex of src/kernel/lib/string.c, and the number printers
    of src/kernel/video/vga.c as methods that return the text they print. */
module NumberText {
  import opened Words
  import opened TextRuns
  import opened Numerals

  const INT_MAX := 0x7FFF_FFFF

  lemma PrependDigit(before: string, d: char, low: string)
    ensures before + ([d] + low) == before + [d] + low
  {
  }

  /** Writes the digits from the least significant on. */
  method WriteLowFirst(value: nat, buffer: array<char>, base: int) returns (k: nat)
    requires BaseOk(base) && |LowFirst(value, base)| <= buffer.Length
    modifies buffer
    ensures k == |LowFirst(value, base)| && buffer[..k] == LowFirst(value, base) && buffer[k..] == old(buffer[k..])
  {
    var v := value;
    k := 0;
    while v != 0
      invariant v >= 0 && k + |LowFirst(v, base)| == |LowFirst(value, base)|
      invariant buffer[..k] + LowFirst(v, base) == LowFirst(value, base)
      invariant forall i :: k <= i < buffer.Length ==> buffer[i] == old(buffer[i])
      decreases v
    {
      Shrinks(v, base);
      PrependDigit(buffer[..k], Digit(v % base), LowFirst(v / base, base));
      PutDigit(buffer, k, v % base);
      k := k + 1;
      v := v / base;
    }
  }

  /** The next character of the buffer becomes a digit. */
  method PutDigit(buffer: array<char>, k: nat, d: nat)
    requires d < 36 && k < buffer.Length
    modifies buffer
    ensures buffer[..k + 1] == old(buffer[..k]) + [Digit(d)]
    ensures forall i :: k < i < buffer.Length ==> buffer[i] == old(buffer[i])
  {
    buffer[k] := if d < 10 then ('0' as int + d) as char else ('A' as int + (d - 10)) as char;
  }

  /** The two-pointer reversal of the first k characters. */
  method ReversePrefix(buffer: array<char>, k: nat)
    requires 0 < k <= buffer.Length
    modifies buffer
    ensures buffer[..k] == Reversed(old(buffer[..k])) && buffer[k..] == old(buffer[k..])
  {
    var lo, hi := 0, k - 1;
    while lo < hi
      invariant 0 <= lo <= k && hi == k - 1 - lo && lo <= hi + 1
      invariant forall i :: 0 <= i < lo ==> buffer[i] == old(buffer[k - 1 - i]) && buffer[k - 1 - i] == old(buffer[i])
      invariant forall i :: lo <= i <= hi ==> buffer[i] == old(buffer[i])
      invariant forall i :: k <= i < buffer.Length ==> buffer[i] == old(buffer[i])
    {
      buffer[lo], buffer[hi] := buffer[hi], buffer[lo];
      lo, hi := lo + 1, hi - 1;
    }
    ghost var was := old(buffer[..k]);
    forall i | 0 <= i < k ensures buffer[i] == Reversed(was)[i] {
      ReversedAt(was, i);
    }
  }

  /** utoa: the buffer holds the numeral as a C string; bytes behind it stay. */
  method Utoa(value: Word, buffer: array<char>, base: int)
    requires BaseOk(base) && |Numeral(value, base)| < buffer.Length
    modifies buffer
    ensures var n := Numeral(value, base);
      && buffer[..|n|] == n && buffer[|n|] == '\0' && buffer[|n| + 1..] == old(buffer[|n| + 1..])
      && CString(buffer[..]) == n
  {
    ghost var n := Numeral(value, base);
    if value == 0 {
      buffer[0] := '0';
      buffer[1] := '\0';
      assert n == "0" && buffer[..1] == "0";
    } else {
      WriteNumeral(value, buffer, base);
    }
    NumeralHasNoNul(value, base);
    assert buffer[..][..|n|] == n;
    CStringPrefix(buffer[..], |n|);
  }

  /** The digits of a positive number, ended and then reversed in place. */
  method WriteNumeral(value: Word, buffer: array<char>, base: int)
    requires BaseOk(base) && value > 0 && |Numeral(value, base)| < buffer.Length
    modifies buffer
    ensures var n := Numeral(value, base);
      buffer[..|n|] == n && buffer[|n|] == '\0' && buffer[|n| + 1..] == old(buffer[|n| + 1..])
  {
    ReversedLowFirst(value, base);
    var k := WriteLowFirst(value, buffer, base);
    assert buffer[k + 1..] == buffer[k..][1..] == old(buffer[k..])[1..] == old(buffer[k + 1..]);
    buffer[k] := '\0';
    assert k > 0 && buffer[..k] == LowFirst(value, base);
    ghost var tail := buffer[k..];
    ReversePrefix(buffer, k);
    assert buffer[k] == tail[0] && buffer[k + 1..] == tail[1..];
  }

  lemma {:induction false} NumeralHasNoNul(v: nat, base: int)
    requires BaseOk(base)
    ensures '\0' !in Numeral(v, base)
    decreases v
  {
    Division(v, base);
    if v >= base { NumeralHasNoNul(v / base, base); }
  }

  /** atoi, for texts whose leading decimal digits do not overflow an int. */
  method Atoi(s: string) returns (result: int)
    requires '\0' !in s && Parse(s, 10, 0) <= INT_MAX
    ensures result == Parse(s, 10, 0)
  {
    result := 0;
    var i := 0;
    assert s[0..] == s;
    while i < |s|
      invariant 0 <= i <= |s| && 0 <= result <= INT_MAX && Parse(s, 10, 0) == Parse(s[i..], 10, result)
    {
      assert s[i..][0] == s[i] && s[i..][1..] == s[i + 1..];
      if s[i] < '0' || s[i] > '9' { break; }
      ParseGrows(s[i + 1..], 10, result * 10 + DigitValue(s[i]));
      result := result * 10 + (s[i] as int - '0' as int);
      i := i + 1;
    }
  }

  /** The text that atoi_hex reads: without an optional 0x. */
  function HexBody(s: string): string {
    if |s| >= 2 && s[0] == '0' && (s[1] == 'x' || s[1] == 'X') then s[2..] else s
  }

  /** Either prefix is skipped, once, and nothing else is. */
  lemma HexPrefix(s: string)
    ensures HexBody("0x" + s) == s && HexBody("0X" + s) == s
    ensures !("0x" <= s) && !("0X" <= s) ==> HexBody(s) == s
  {
    if |s| >= 2 && s[0] == '0' && s[1] == 'x' { assert "0x" <= s; }
    if |s| >= 2 && s[0] == '0' && s[1] == 'X' { assert "0X" <= s; }
  }

  /** atoi_hex, likewise. */
  method AtoiHex(s: string) returns (result: int)
    requires '\0' !in s && Parse(HexBody(s), 16, 0) <= INT_MAX
    ensures result == Parse(HexBody(s), 16, 0)
  {
    result := 0;
    var i := 0;
    if |s| >= 2 && s[0] == '0' && (s[1] == 'x' || s[1] == 'X') { i := 2; }
    assert s[0..] == s;
    while i < |s|
      invariant 0 <= i <= |s| && 0 <= result <= INT_MAX && Parse(HexBody(s), 16, 0) == Parse(s[i..], 16, result)
    {
      assert s[i..][0] == s[i] && s[i..][1..] == s[i + 1..];
      var c := s[i];
      var value;
      if '0' <= c <= '9' { value := c as int - '0' as int; }
      else if 'a' <= c <= 'f' { value := c as int - 'a' as int + 10; }
      else if 'A' <= c <= 'F' { value := c as int - 'A' as int + 10; }
      else { break; }
      assert value == DigitValue(c) < 16;
      ParseGrows(s[i + 1..], 16, result * 16 + value);
      result := result * 16 + value;
      i := i + 1;
    }
  }

  function Ten(k: nat): nat {
    if k == 0 then 1 else 10 * Ten(k - 1)
  }

  lemma {:induction false} DecimalLength(v: nat, k: nat)
    requires v < Ten(k)
    ensures |LowFirst(v, 10)| <= k
  {
    if v > 0 {
      Division(v, 10);
      DecimalLength(v / 10, k - 1);
    }
  }

  /** vga_print_dec: the digits go through an 11-byte buffer and are printed from
      the end of it. */
  method VgaPrintDec(num: Word) returns (text: string)
    ensures text == Numeral(num, 10)
  {
    if num == 0 { return "0"; }
    var buffer := new char[11];
    assert Ten(10) > num by { assert Ten(5) == 100000; assert Ten(10) == 10000000000; }
    DecimalLength(num, 10);
    var i := WriteLowFirst(num, buffer, 10);
    text := "";
    var j := i - 1;
    ghost var digits := buffer[..i];
    while j >= 0
      invariant -1 <= j < i && |text| == i - 1 - j
      invariant forall k :: 0 <= k < |text| ==> text[k] == digits[i - 1 - k]
    {
      text := text + [buffer[j]];
      j := j - 1;
    }
    forall k | 0 <= k < i ensures text[k] == Reversed(digits)[k] { ReversedAt(digits, k); }
    assert text == Reversed(digits);
    ReversedLowFirst(num, 10);
  }

  // ----- eight hexadecimal digits

  function Sixteen(k: nat): (n: nat)
    ensures n > 0
  {
    if k == 0 then 1 else 16 * Sixteen(k - 1)
  }

  /** The k lowest hex digits of v, most significant first. */
  function HexDigits(v: nat, k: nat): (s: string)
    ensures |s| == k
  {
    if k == 0 then "" else HexDigits(v / 16, k - 1) + [Digit(v % 16)]
  }

  lemma {:induction false} ParseHexDigits(v: nat, k: nat)
    requires v < Sixteen(k)
    ensures AllDigits(HexDigits(v, k), 16) && Parse(HexDigits(v, k), 16, 0) == v
  {
    if k > 0 {
      Division(v, 16);
      ParseHexDigits(v / 16, k - 1);
      ParseAppend(HexDigits(v / 16, k - 1), Digit(v % 16), 16, 0);
    }
  }

  /** Each nibble of a word, from the most significant, is its hex digit. */
  lemma {:induction false} HexDigitAt(v: nat, k: nat, i: nat)
    requires i < k
    ensures HexDigits(v, k)[i] == Digit(v / Sixteen(k - 1 - i) % 16)
  {
    if i < k - 1 {
      HexDigitAt(v / 16, k - 1, i);
      DivTwice(v, Sixteen(k - 2 - i));
    }
  }

  lemma DivTwice(v: nat, m: nat)
    requires m > 0
    ensures v / 16 / m == v / (16 * m)
  {
    Division(v, 16);
    Division(v / 16, m);
    var q, r, s := v / 16 / m, v / 16 % m, v % 16;
    assert q * (16 * m) == 16 * (q * m);
    assert v == q * (16 * m) + (16 * r + s);
    DivMod(q, 16 * r + s, 16 * m);
  }

  lemma HexChar(d: nat)
    requires d < 16
    ensures "0123456789ABCDEF"[d] == Digit(d)
  {
  }

  /** Dividing by a weight and taking the remainder is the shift and mask of the
      code. */
  lemma NibblesAreArithmetic(x: bv32)
    ensures (x >> 28) & 0xF == x / 0x1000_0000 % 16 && (x >> 24) & 0xF == x / 0x100_0000 % 16
    ensures (x >> 20) & 0xF == x / 0x10_0000 % 16 && (x >> 16) & 0xF == x / 0x1_0000 % 16
    ensures (x >> 12) & 0xF == x / 0x1000 % 16 && (x >> 8) & 0xF == x / 0x100 % 16
    ensures (x >> 4) & 0xF == x / 0x10 % 16 && (x >> 0) & 0xF == x % 16
  {
  }

  /** vga_print_hex: 0x and the eight nibbles of the word. */
  method VgaPrintHex(value: Word) returns (text: string)
    ensures text == "0x" + HexDigits(value, 8)
  {
    var buffer := new char[11];
    buffer[0] := '0';
    buffer[1] := 'x';
    var i := 0;
    var weight := 0x1000_0000;
    assert Sixteen(4) == 0x1_0000 && Sixteen(7) == 0x1000_0000;
    while i < 8
      invariant 0 <= i <= 8 && buffer[..2] == "0x"
      invariant i < 8 ==> weight == Sixteen(7 - i)
      invariant forall j :: 0 <= j < i ==> buffer[2 + j] == HexDigits(value, 8)[j]
    {
      HexDigitAt(value, 8, i);
      var nibble := value / weight % 16;
      HexChar(nibble);
      buffer[2 + i] := "0123456789ABCDEF"[nibble];
      weight := weight / 16;
      i := i + 1;
    }
    buffer[10] := '\0';
    return buffer[..10];
  }

  /** atoi_hex undoes utoa in base 16 and the prefixed form of vga_print_hex. */
  lemma HexRoundTrip(v: Word)
    ensures Parse(HexBody(Numeral(v, 16)), 16, 0) == v
    ensures Parse(HexBody("0x" + HexDigits(v, 8)), 16, 0) == v
  {
    ParseNumeral(v, 16);
    var s := Numeral(v, 16);
    if |s| >= 2 { assert DigitValue(s[1]) < 16; }
    assert HexBody(s) == s;
    assert Sixteen(4) == 0x1_0000 && Sixteen(8) == 0x1_0000_0000;
    ParseHexDigits(v, 8);
    assert HexBody("0x" + HexDigits(v, 8)) == HexDigits(v, 8);
  }
}

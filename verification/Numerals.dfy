/** Positional numerals: the texts that the printers of string.c and vga.c
    produce and that atoi and atoi_hex read. */
module Numerals {
  predicate BaseOk(base: int) {
    2 <= base <= 36
  }

  lemma AtLeastOnce(k: int, base: int)
    requires 1 <= k && 0 <= base
    ensures k * base >= base
  {
  }

  lemma QuotientSize(v: nat, q: int, r: int, base: int)
    requires 0 < base && v == q * base + r && 0 <= r < base
    ensures 0 <= q && (v >= base ==> q > 0) && (v > 0 && base > 1 ==> q < v)
  {
    if q < 0 {
      NegativeProduct(q, base);
      assert false;
    }
    assert q == 0 ==> q * base == 0;
    if q > 0 && base > 1 { AtLeastTwice(q, base); }
  }

  lemma NegativeProduct(q: int, base: int)
    requires q < 0 < base
    ensures q * base <= -base
  {
    AtLeastOnce(-q, base);
    assert (-q) * base == -(q * base);
  }

  lemma AtLeastTwice(q: int, base: int)
    requires 0 < q && 2 <= base
    ensures q * base >= 2 * q
  {
    assert q * base == q * 2 + q * (base - 2);
  }

  /** Division by the base drops the last digit. */
  lemma Division(v: nat, base: int)
    requires 0 < base
    ensures v == v / base * base + v % base && 0 <= v % base < base && 0 <= v / base
    ensures v > 0 && base > 1 ==> v / base < v
    ensures v >= base ==> v / base > 0
  {
    assert v == v / base * base + v % base;
    QuotientSize(v, v / base, v % base, base);
  }

  /** Just the sizes, for termination. */
  lemma Shrinks(v: nat, base: int)
    requires BaseOk(base)
    ensures 0 <= v % base < base && 0 <= v / base && (v > 0 ==> v / base < v)
  {
    Division(v, base);
  }

  lemma Grows(acc: nat, d: nat, base: int)
    requires BaseOk(base)
    ensures acc * base + d >= acc
  {
  }

  lemma DivMod(q: nat, r: nat, base: int)
    requires 0 <= r < base
    ensures (q * base + r) / base == q && (q * base + r) % base == r
  {
    var x := q * base + r;
    var p := x / base;
    Division(x, base);
    assert (p - q) * base == r - x % base;
    SmallMultiple(p - q, base);
  }

  /** A multiple of the base smaller than the base is zero. */
  lemma SmallMultiple(k: int, base: int)
    requires -base < k * base < base
    ensures k == 0
  {
    assert (-k) * base == -(k * base);
    if k > 0 { AtLeastOnce(k, base); }
    if k < 0 { AtLeastOnce(-k, base); }
  }

  function Digit(d: nat): (c: char)
    requires d < 36
    ensures DigitValue(c) == d && c != '\0'
  {
    if d < 10 then ('0' as int + d) as char else ('A' as int + (d - 10)) as char
  }

  /** The value of a digit in any base up to 36, lower-case hex digits included;
      36 when c is no digit. */
  function DigitValue(c: char): (d: nat)
    ensures d <= 36
  {
    if '0' <= c <= '9' then c as int - '0' as int
    else if 'A' <= c <= 'Z' then c as int - 'A' as int + 10
    else if 'a' <= c <= 'f' then c as int - 'a' as int + 10
    else 36
  }

  /** The digits in order of value; lower-case letters count as hex digits too, and
      no other character is a digit. */
  lemma DigitTable(d: nat, c: char)
    ensures d < 36 ==> "0123456789ABCDEFGHIJKLMNOPQRSTUVWXYZ"[d] == Digit(d)
    ensures d < 36 ==> DigitValue("0123456789ABCDEFGHIJKLMNOPQRSTUVWXYZ"[d]) == d
    ensures d < 6 ==> DigitValue("abcdef"[d]) == 10 + d
    ensures c !in "0123456789ABCDEFGHIJKLMNOPQRSTUVWXYZabcdef" ==> DigitValue(c) == 36
  {
    if '0' <= c <= '9' { assert c == "0123456789"[c as int - '0' as int]; }
    if 'A' <= c <= 'Z' { assert c == "ABCDEFGHIJKLMNOPQRSTUVWXYZ"[c as int - 'A' as int]; }
    if 'a' <= c <= 'f' { assert c == "abcdef"[c as int - 'a' as int]; }
  }

  /** The numeral of v, most significant digit first. */
  function Numeral(v: nat, base: int): (s: string)
    requires BaseOk(base)
    ensures s != ""
    decreases v
  {
    Shrinks(v, base);
    if v < base then [Digit(v)] else Numeral(v / base, base) + [Digit(v % base)]
  }

  /** Digits of v from the least significant on; nothing for 0. */
  function LowFirst(v: nat, base: int): string
    requires BaseOk(base)
    decreases v
  {
    Shrinks(v, base);
    if v == 0 then "" else [Digit(v % base)] + LowFirst(v / base, base)
  }

  function Reversed(s: string): (r: string)
    ensures |r| == |s|
  {
    if s == "" then "" else Reversed(s[1..]) + [s[0]]
  }

  lemma {:induction false} ReversedAt(s: string, k: nat)
    requires k < |s|
    ensures Reversed(s)[k] == s[|s| - 1 - k]
  {
    if k < |s| - 1 { ReversedAt(s[1..], k); }
  }

  /** The generated digits, reversed, are the numeral. */
  lemma {:induction false} ReversedLowFirst(v: nat, base: int)
    requires BaseOk(base) && v > 0
    ensures Reversed(LowFirst(v, base)) == Numeral(v, base)
    decreases v
  {
    Shrinks(v, base);
    ReversedCons(Digit(v % base), LowFirst(v / base, base));
    if v < base {
      OneDigit(v, base);
    } else {
      MoreDigits(v, base);
      ReversedLowFirst(v / base, base);
    }
  }

  lemma OneDigit(v: nat, base: int)
    requires v < base
    ensures v / base == 0 && v % base == v
  {
  }

  lemma MoreDigits(v: nat, base: int)
    requires 0 < base <= v
    ensures v / base > 0
  {
    Division(v, base);
  }

  lemma ReversedCons(c: char, s: string)
    ensures Reversed([c] + s) == Reversed(s) + [c]
  {
    assert ([c] + s)[1..] == s;
  }

  // ----- reading

  /** The value of the leading digits below base, on top of acc. */
  function Parse(s: string, base: int, acc: nat): nat
    requires BaseOk(base)
    decreases |s|
  {
    if s == "" || DigitValue(s[0]) >= base then acc
    else Parse(s[1..], base, acc * base + DigitValue(s[0]))
  }

  predicate AllDigits(s: string, base: int) {
    forall i :: 0 <= i < |s| ==> DigitValue(s[i]) < base
  }

  lemma {:induction false} ParseAppend(s: string, c: char, base: int, acc: nat)
    requires BaseOk(base) && AllDigits(s, base)
    ensures Parse(s + [c], base, acc) ==
      if DigitValue(c) < base then Parse(s, base, acc) * base + DigitValue(c) else Parse(s, base, acc)
    decreases |s|
  {
    if s == "" {
      assert s + [c] == [c] && [c][1..] == "";
    } else {
      assert (s + [c])[1..] == s[1..] + [c];
      ParseAppend(s[1..], c, base, acc * base + DigitValue(s[0]));
    }
  }

  /** Reading stops at the first character that is no digit, whatever follows. */
  lemma {:induction false} ParseStops(s: string, c: char, t: string, base: int, acc: nat)
    requires BaseOk(base) && AllDigits(s, base) && DigitValue(c) >= base
    ensures Parse(s + [c] + t, base, acc) == Parse(s, base, acc)
    decreases |s|
  {
    if s != "" {
      assert (s + [c] + t)[1..] == s[1..] + [c] + t;
      ParseStops(s[1..], c, t, base, acc * base + DigitValue(s[0]));
    }
  }

  /** Reading a numeral gives the number back, in every base. */
  lemma {:induction false} ParseNumeral(v: nat, base: int)
    requires BaseOk(base)
    ensures AllDigits(Numeral(v, base), base) && Parse(Numeral(v, base), base, 0) == v
    decreases v
  {
    Division(v, base);
    if v < base {
      assert Numeral(v, base) == "" + [Digit(v)];
      ParseAppend("", Digit(v), base, 0);
    } else {
      var high, d := Numeral(v / base, base), Digit(v % base);
      ParseNumeral(v / base, base);
      ParseAppend(high, d, base, 0);
      assert Numeral(v, base) == high + [d];
    }
  }

  lemma {:induction false} ParseGrows(s: string, base: int, acc: nat)
    requires BaseOk(base)
    ensures Parse(s, base, acc) >= acc
    decreases |s|
  {
    if s != "" && DigitValue(s[0]) < base {
      Grows(acc, DigitValue(s[0]), base);
      ParseGrows(s[1..], base, acc * base + DigitValue(s[0]));
    }
  }

  /** Upper-case digits without a leading zero, except for zero itself. */
  predicate Canonical(s: string, base: int) {
    && s != "" && (|s| > 1 ==> s[0] != '0')
    && forall i :: 0 <= i < |s| ==> DigitValue(s[i]) < base && !('a' <= s[i] <= 'z')
  }

  lemma DigitOfValue(c: char)
    requires DigitValue(c) < 36 && !('a' <= c <= 'z')
    ensures Digit(DigitValue(c)) == c
  {
  }

  lemma {:induction false} PositiveWithoutLeadingZero(s: string, base: int)
    requires BaseOk(base) && Canonical(s, base) && s != "0"
    ensures Parse(s, base, 0) > 0
  {
    assert |s| == 1 ==> s == [s[0]];
    DigitOfValue(s[0]);
    ParseGrows(s[1..], base, DigitValue(s[0]));
  }

  lemma NumeralStep(q: nat, d: nat, base: int)
    requires BaseOk(base) && d < base && 0 < q
    ensures Numeral(q * base + d, base) == Numeral(q, base) + [Digit(d)]
  {
    DivMod(q, d, base);
    AtLeastOnce(q, base);
  }

  /** A longer canonical text is a canonical text and one more digit. */
  lemma LastDigit(s: string, base: int)
    requires BaseOk(base) && Canonical(s, base) && |s| > 1
    ensures var n := |s| - 1; var t, d := s[..n], DigitValue(s[n]);
      && Canonical(t, base) && t != "0" && d < base && s == t + [Digit(d)]
      && Parse(s, base, 0) == Parse(t, base, 0) * base + d
  {
    var n := |s| - 1;
    var t := s[..n];
    assert s == t + [s[n]] && t[0] == s[0];
    ParseAppend(t, s[n], base, 0);
    DigitOfValue(s[n]);
  }

  lemma OneDigitText(s: string, base: int)
    requires BaseOk(base) && Canonical(s, base) && |s| == 1
    ensures s == Numeral(Parse(s, base, 0), base)
  {
    assert s == "" + [s[0]];
    ParseAppend("", s[0], base, 0);
    DigitOfValue(s[0]);
  }

  /** The numeral is the only canonical text with its value. */
  lemma {:induction false} NumeralIsUnique(s: string, base: int)
    requires BaseOk(base) && Canonical(s, base)
    ensures s == Numeral(Parse(s, base, 0), base)
    decreases |s|
  {
    var n := |s| - 1;
    if n == 0 {
      OneDigitText(s, base);
    } else {
      LastDigit(s, base);
      NumeralIsUnique(s[..n], base);
      PositiveWithoutLeadingZero(s[..n], base);
      NumeralStep(Parse(s[..n], base, 0), DigitValue(s[n]), base);
    }
  }
}

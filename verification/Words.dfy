/** 32-bit words. */
module Words {

  const TWO32 := 0x1_0000_0000

  type Word = x: int | 0 <= x < TWO32

  /** 32-bit unsigned wrap-around. */
  function W32(x: int): (r: int)
    ensures 0 <= r < TWO32
    ensures 0 <= x < TWO32 ==> r == x
  {
    x % TWO32
  }

  /** The wrapped value differs from the exact one by a multiple of 2^32. */
  lemma WrapsBy(x: int) returns (k: int)
    ensures x == k * 0x1_0000_0000 + W32(x) && 0 <= W32(x) < 0x1_0000_0000
  {
    k := x / TWO32;
  }

  /** Sums of aligned addresses and sizes are aligned. */
  lemma AlignedSum(a: int, s: int)
    requires a % 4 == 0 && s % 8 == 0
    ensures s % 4 == 0 && (a + s) % 4 == 0
  {
    var i, j := a / 4, s / 8;
    assert a == 4 * i && s == 4 * (2 * j) && a + s == 4 * (i + 2 * j);
  }

  lemma EightSum(x: int, y: int)
    requires x % 8 == 0 && y % 8 == 0
    ensures (x + y) % 8 == 0 && (x + y + 24) % 8 == 0 && (x - y - 24) % 8 == 0
  {
    var i, j := x / 8, y / 8;
    assert x == 8 * i && y == 8 * j;
    assert x + y == 8 * (i + j) && x + y + 24 == 8 * (i + j + 3) && x - y - 24 == 8 * (i - j - 3);
  }
}

/** The C integer operators the watch face uses, on unbounded integers, and the
    division facts the proofs about them rest on. */
module CArith {

  /** C's `/` on `int`: the quotient truncated toward zero. */
  function TruncDiv(n: int, d: int): int
    requires d > 0
  {
    if n >= 0 then n / d else -((-n) / d)
  }

  /** Truncation rounds toward zero: the exact quotient lies in [q, q + 1) for a
      non-negative numerator and in (q - 1, q] for a negative one. */
  lemma TruncDivRoundsTowardZero(n: int, d: int)
    requires d > 0
    ensures var q := TruncDiv(n, d); n >= 0 ==> d * q <= n < d * q + d
    ensures var q := TruncDiv(n, d); n < 0 ==> d * q - d < n <= d * q
  {
    if n < 0 {
      DivMod(-n, d);
    } else {
      DivMod(n, d);
    }
  }

  /** Truncation is not Dafny's (Euclidean) division on a negative numerator. */
  lemma TruncDivNotEuclidean()
    ensures TruncDiv(-4, 10) == 0 && -4 / 10 == -1
  {
  }

  /** C's `&` on non-negative integers, one bit at a time from the lowest. */
  function BitAnd(x: nat, y: nat): (r: nat)
    ensures r <= x && r <= y
    decreases x
  {
    if x == 0 || y == 0 then 0
    else 2 * BitAnd(x / 2, y / 2) + (if x % 2 == 1 && y % 2 == 1 then 1 else 0)
  }

  /** The lowest bit of `x & y` is that of y where x has it set; the rest is `x / 2 & y / 2`. */
  lemma BitAndStep(x: nat, y: nat)
    ensures BitAnd(x, y) == 2 * BitAnd(x / 2, y / 2) + (if x % 2 == 1 then y % 2 else 0)
  {
    if x == 0 || y == 0 {
      assert BitAnd(x / 2, y / 2) == 0;
    }
  }

  lemma DivMod(n: int, d: int)
    requires d > 0
    ensures n == d * (n / d) + n % d && 0 <= n % d < d
  {
  }

  lemma MulAtLeast(d: int, k: int)
    requires d > 0 && k >= 1
    ensures d * k >= d
  {
    if k > 1 {
      MulAtLeast(d, k - 1);
    }
  }

  /** Quotient and remainder are the only split of n with a remainder in [0, d). */
  lemma DivModUnique(n: int, d: int, q: int, s: int)
    requires d > 0 && 0 <= s < d && n == d * q + s
    ensures n / d == q && n % d == s
  {
    var q', s' := n / d, n % d;
    assert d * (q - q') == s' - s;
    if q > q' {
      MulAtLeast(d, q - q');
    } else if q < q' {
      MulAtLeast(d, q' - q);
    }
  }

  lemma DoubleSplit(z: int, d: int, q: int, r: int, b: int)
    requires z == d * q + r
    ensures 2 * z + b == (2 * d) * q + (2 * r + b)
  {
  }

  /** If `low` is the bits of y / 2 below bit m - 1 (h = 2^(m-1)) and its bit m, then
      twice it plus the lowest bit of y is the bits of y below bit m and its bit m + 1. */
  lemma GapBits(y: nat, h: nat, low: int)
    requires h >= 1
    requires low == 2 * h * (y / 2 / (2 * h) % 2) + y / 2 % h
    ensures 2 * low + y % 2 == 4 * h * (y / (4 * h) % 2) + y % (2 * h)
  {
    var d := 2 * h;
    var z, b := y / 2, y % 2;
    DivMod(z, d);
    DivMod(z, h);
    DoubleSplit(z, d, z / d, z % d, b);
    DoubleSplit(z, h, z / h, z % h, b);
    DivModUnique(y, 2 * d, z / d, 2 * (z % d) + b);
    DivModUnique(y, d, z / h, 2 * (z % h) + b);
  }

  /** A mask whose lowest bit is set and whose upper part keeps the bits of y / 2 below
      bit m - 1 and its bit m keeps the bits of y below bit m and its bit m + 1. */
  lemma GapMaskStep(x: nat, y: nat, h: nat)
    requires h >= 1 && x % 2 == 1
    requires BitAnd(x / 2, y / 2) == 2 * h * (y / 2 / (2 * h) % 2) + y / 2 % h
    ensures BitAnd(x, y) == 4 * h * (y / (4 * h) % 2) + y % (2 * h)
  {
    BitAndStep(x, y);
    GapBits(y, h, BitAnd(x / 2, y / 2));
  }

  /** `0xBF & y` (0b10111111) keeps bit 7 and bits 0-5 of y: it clears bit 6 of a byte. */
  lemma MaskBF(y: nat)
    ensures BitAnd(0xBF, y) == 128 * (y / 128 % 2) + y % 64
  {
    var y1 := y / 2;
    var y2 := y1 / 2;
    var y3 := y2 / 2;
    var y4 := y3 / 2;
    var y5 := y4 / 2;
    var y6 := y5 / 2;
    BitAndStep(2, y6);
    BitAndStep(1, y6 / 2);
    assert BitAnd(0, y6 / 4) == 0;
    GapMaskStep(5, y5, 1);
    GapMaskStep(11, y4, 2);
    GapMaskStep(23, y3, 4);
    GapMaskStep(47, y2, 8);
    GapMaskStep(95, y1, 16);
    GapMaskStep(0xBF, y, 32);
  }
}

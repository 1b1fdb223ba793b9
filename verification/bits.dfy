/** Python's bitwise `&` on unbounded integers, which behave as infinite two's
    complement numbers, and the facts about it that the hash tables and the
    Fenwick tree rely on. */
module Bits {

  /** `a & b` for any `a` and a non-negative `b`. Euclidean `/ 2` and `% 2` are an
      arithmetic shift and the lowest bit of a two's-complement number, also when
      `a` is negative. */
  function And(a: int, b: nat): (r: nat)
    ensures r <= b
    decreases b
  {
    if b == 0 then 0 else 2 * And(a / 2, b / 2) + (a % 2) * (b % 2)
  }

  predicate IsPowerOfTwo(n: int)
    decreases if n < 0 then 0 else n
  {
    n == 1 || (n >= 2 && n % 2 == 0 && IsPowerOfTwo(n / 2))
  }

  lemma {:induction false} DoubleIsPowerOfTwo(n: int)
    requires IsPowerOfTwo(n)
    ensures IsPowerOfTwo(2 * n) && 2 * n >= 2
  {
    assert (2 * n) / 2 == n;
  }

  lemma MulMonotone(n: int, k: int)
    requires n > 0 && k >= 1
    ensures n * k >= n
  {
    assert n * k == n + n * (k - 1);
  }

  /** Euclidean division is determined by its defining equation. */
  lemma ModOfDecomposition(h: int, n: int, t: int, m: int)
    requires 0 <= m < n && h == n * t + m
    ensures h % n == m && h / n == t
  {
    var q, r := h / n, h % n;
    assert n * (t - q) == r - m;
    if t - q >= 1 {
      MulMonotone(n, t - q);
    } else if q - t >= 1 {
      MulMonotone(n, q - t);
    }
  }

  lemma Regroup(h: int, q: int, r: int, half: int, t: int, s: int)
    requires h == 2 * q + r && q == half * t + s
    ensures h == (2 * half) * t + (2 * s + r)
  {
    assert 2 * (half * t) == (2 * half) * t;
  }

  /** Masking with `n - 1` is the Euclidean remainder by `n` when `n` is a power
      of two, for negative `h` as well. */
  lemma {:induction false} MaskIsMod(h: int, n: int)
    requires IsPowerOfTwo(n)
    ensures And(h, n - 1) == h % n
    decreases n
  {
    if n > 1 {
      AndOddMask(h, n);
      MaskIsMod(h / 2, n / 2);
      CombineHalves(h, n, (h / 2) % (n / 2));
    }
  }

  /** One step of the mask: the low bit of `n - 1` is set when `n` is even. */
  lemma AndOddMask(h: int, n: int)
    requires n >= 2 && n % 2 == 0
    ensures And(h, n - 1) == 2 * And(h / 2, n / 2 - 1) + h % 2
  {
    ModOfDecomposition(n - 1, 2, n / 2 - 1, 1);
  }

  /** Reassembles a remainder by `n` from the remainder of `h / 2` by `n / 2`. */
  lemma CombineHalves(h: int, n: int, a: int)
    requires n >= 2 && n % 2 == 0 && a == (h / 2) % (n / 2)
    ensures 2 * a + h % 2 == h % n
  {
    var half, q, r := n / 2, h / 2, h % 2;
    var t := q / half;
    Regroup(h, q, r, half, t, a);
    ModOfDecomposition(h, n, t, 2 * a + r);
  }

  /** The lowest set bit of a positive number. */
  function LowBit(i: int): (r: int)
    requires i > 0
    ensures 1 <= r <= i
    decreases i
  {
    if i % 2 == 1 then 1 else 2 * LowBit(i / 2)
  }

  lemma {:induction false} AndSelf(a: nat)
    ensures And(a, a) == a
    decreases a
  {
    if a > 0 {
      AndSelf(a / 2);
    }
  }

  /** `~m & m == 0`: a number and its complement share no bit. */
  lemma {:induction false} AndComplement(m: int)
    requires m >= 0
    ensures And(-m - 1, m) == 0
    decreases m
  {
    if m > 0 {
      assert (-m - 1) / 2 == -(m / 2) - 1;
      assert (-m - 1) % 2 * (m % 2) == 0;
      AndComplement(m / 2);
    }
  }

  /** Python's `i & -i` (here with the non-negative operand second; `&` is
      commutative) isolates the lowest set bit. */
  lemma {:induction false} AndNegIsLowBit(i: int)
    requires i > 0
    ensures And(-i, i) == LowBit(i)
    decreases i
  {
    if i % 2 == 1 {
      assert (-i) / 2 == -(i / 2) - 1;
      AndComplement(i / 2);
    } else {
      assert (-i) / 2 == -(i / 2) && (-i) % 2 == 0;
      AndNegIsLowBit(i / 2);
    }
  }

  /** Python's `i & (i - 1)` clears the lowest set bit. */
  lemma {:induction false} AndPredIsClearLowBit(i: int)
    requires i > 0
    ensures And(i, i - 1) == i - LowBit(i)
    decreases i
  {
    if i % 2 == 1 {
      assert (i - 1) / 2 == i / 2;
      AndSelf(i / 2);
    } else {
      assert (i - 1) / 2 == i / 2 - 1 && (i - 1) % 2 == 1;
      AndPredIsClearLowBit(i / 2);
    }
  }

  /** Adding a number smaller than the lowest bit of `i` leaves that number's lowest
      bit as the lowest bit of the sum. */
  lemma {:induction false} LowBitOfSum(i: int, r: int)
    requires i > 0 && 0 < r < LowBit(i)
    ensures LowBit(i + r) == LowBit(r)
    decreases r
  {
    if r % 2 == 0 {
      assert i % 2 == 0;
      assert (i + r) / 2 == i / 2 + r / 2;
      LowBitOfSum(i / 2, r / 2);
    } else {
      assert i % 2 == 0;
    }
  }

  /** Adding the lowest bit carries into a strictly higher bit. */
  lemma {:induction false} LowBitGrows(i: int)
    requires i > 0
    ensures LowBit(i + LowBit(i)) >= 2 * LowBit(i)
    decreases i
  {
    if i % 2 == 1 {
      assert (i + 1) % 2 == 0;
      assert LowBit(i + 1) == 2 * LowBit((i + 1) / 2);
    } else {
      LowBitGrows(i / 2);
      assert (i + LowBit(i)) / 2 == i / 2 + LowBit(i / 2);
    }
  }
}

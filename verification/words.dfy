/** Machine words as bounded integers, and the small pieces of integer arithmetic the address
    model needs.

    Addresses, indices and sizes are unsigned machine integers in the crate. The model keeps
    them as mathematical integers restricted to the range of their Rust type, so that a Rust
    overflow (a panic in a debug build) becomes a visible precondition instead of a silent
    wrap-around. Bit extraction on such values is written with division and remainder by powers
    of two, which is the same value for non-negative operands. */
module Words {
  const U16_LIMIT: int := 0x1_0000
  const U32_LIMIT: int := 0x1_0000_0000
  const U64_LIMIT: int := 0x1_0000_0000_0000_0000

  type u16 = x: int | 0 <= x < U16_LIMIT
  type u32 = x: int | 0 <= x < U32_LIMIT
  type u64 = x: int | 0 <= x < U64_LIMIT

  /** `usize` on x86-64. */
  type usize = u64

  /** 2 to the power `n`. */
  function Pow2(n: nat): (r: nat)
    ensures r >= 1
  {
    if n == 0 then 1 else 2 * Pow2(n - 1)
  }

  /** Exponents add when powers of two multiply. */
  lemma {:induction false} Pow2Add(a: nat, b: nat)
    ensures Pow2(a + b) == Pow2(a) * Pow2(b)
  {
    if b > 0 {
      Pow2Add(a, b - 1);
      assert Pow2(a + b) == 2 * Pow2(a + b - 1);
    }
  }

  /** The powers of two that size pages, tables and address spaces. */
  lemma Pow2Values()
    ensures Pow2(9) == 512 && Pow2(12) == 0x1000 && Pow2(21) == 0x20_0000
    ensures Pow2(30) == 0x4000_0000 && Pow2(39) == 0x80_0000_0000
    ensures Pow2(47) == 0x8000_0000_0000 && Pow2(48) == 0x1_0000_0000_0000
  {
    assert Pow2(3) == 8;
    assert Pow2(6) == 64 by { Pow2Add(3, 3); }
    assert Pow2(9) == 512 by { Pow2Add(6, 3); }
    assert Pow2(12) == 0x1000 by { Pow2Add(9, 3); }
    assert Pow2(21) == 0x20_0000 by { Pow2Add(12, 9); }
    assert Pow2(30) == 0x4000_0000 by { Pow2Add(21, 9); }
    assert Pow2(39) == 0x80_0000_0000 by { Pow2Add(30, 9); }
    assert Pow2(48) == 0x1_0000_0000_0000 by { Pow2Add(39, 9); }
    assert Pow2(47) == 0x8000_0000_0000 by { Pow2Add(39, 8); Pow2Add(6, 2); }
  }

  /** The powers of two that bound the words of the crate. */
  lemma Pow2Words()
    ensures Pow2(16) == U16_LIMIT && Pow2(32) == U32_LIMIT && Pow2(64) == U64_LIMIT
  {
    Pow2Values();
    Pow2Add(12, 4);
    Pow2Add(16, 16);
    Pow2Add(32, 32);
  }

  /** Larger exponents give larger powers. */
  lemma {:induction false} Pow2Increasing(a: nat, b: nat)
    requires a < b
    ensures Pow2(a) < Pow2(b)
  {
    if a < b - 1 {
      Pow2Increasing(a, b - 1);
    }
  }

  /** A power of two divides every power of two at least as large. */
  lemma SmallerPowerDivides(align: int, j: nat)
    requires IsPowerOfTwo(align) && align <= Pow2(j)
    ensures Pow2(j) % align == 0 && Pow2(j) == align * (Pow2(j) / align)
  {
    var k: nat :| k < 64 && align == Pow2(k);
    if k <= j {
      Pow2Add(k, j - k);
      MultipleModIsZero(align, Pow2(j - k));
    } else {
      Pow2Increasing(j, k);
      assert false;
    }
  }

  /** `n.is_power_of_two()`. */
  predicate IsPowerOfTwo(n: int)
  {
    exists k: nat :: k < 64 && n == Pow2(k)
  }

  /** `n * d` is at least `n` for positive factors. */
  lemma MulAtLeast(n: int, d: int)
    requires n > 0 && d >= 1
    ensures n * d >= n
  {
  }

  /** `n * d` is at most `-n` when `d` is negative. */
  lemma MulAtMost(n: int, d: int)
    requires n > 0 && d <= -1
    ensures n * d <= -n
  {
  }

  /** Euclidean division is unique: any decomposition `x == n * q + r` with `0 <= r < n` is the
      one `/` and `%` compute. */
  lemma DivModUnique(n: int, q: int, r: int, x: int)
    requires n > 0 && 0 <= r < n && x == n * q + r
    ensures x / n == q && x % n == r
  {
    var d := q - x / n;
    assert n * d == x % n - r by {
      assert x == n * (x / n) + x % n;
    }
    if d >= 1 {
      MulAtLeast(n, d);
    } else if d <= -1 {
      MulAtMost(n, d);
    }
  }

  /** A multiple of `n` leaves no remainder. */
  lemma MultipleModIsZero(n: int, q: int)
    requires n > 0
    ensures (n * q) % n == 0 && (n * q) / n == q
  {
    DivModUnique(n, q, 0, n * q);
  }

  /** Taking away the remainder leaves a multiple of `n`, no larger and less than `n` below. */
  lemma RemainderRemoved(x: int, n: int)
    requires n > 0
    ensures (x - x % n) % n == 0 && x - n < x - x % n <= x
  {
    assert x - x % n == n * (x / n);
    MultipleModIsZero(n, x / n);
  }

  /** Multiplication regroups. */
  lemma MulAssociates(a: int, b: int, c: int)
    ensures (a * b) * c == a * (b * c)
  {
  }

  /** Multiplying by a positive factor keeps order. */
  lemma MulMonotone(c: int, a: int, b: int)
    requires c > 0 && a <= b
    ensures c * a <= c * b
  {
  }

  /** Scaling a sum of counts is the sum of the scaled counts, each no larger than the whole. */
  lemma MulDistributes(a: int, b: int, s: int)
    requires a >= 0 && b >= 0 && s > 0
    ensures (a + b) * s == a * s + b * s
    ensures 0 <= a * s <= (a + b) * s && 0 <= b * s
  {
  }

  /** The remainder modulo `c * m` splits into the digit in position `c` and the remainder modulo
      `c`: the decimal-style expansion of a number in a mixed radix. */
  lemma ModSplit(x: int, c: int, m: int)
    requires x >= 0 && c > 0 && m > 0
    ensures x % (c * m) == x / c % m * c + x % c
  {
    var q, r := x / c, x % c;
    assert x == c * q + r;
    assert q == m * (q / m) + q % m;
    assert x == (c * m) * (q / m) + (c * (q % m) + r);
    MulMonotone(c, q % m, m - 1);
    DivModUnique(c * m, q / m, c * (q % m) + r, x);
  }

  /** Between two distinct multiples of `n` there is a gap of at least `n`. */
  lemma AlignedGap(a: int, b: int, n: int)
    requires n > 0 && a % n == 0 && b % n == 0 && a < b
    ensures a + n <= b
  {
    var d := b / n - a / n;
    assert b - a == n * d;
    if d <= -1 {
      MulAtMost(n, d);
    } else if d >= 1 {
      MulAtLeast(n, d);
    }
  }

  /** The distance between two multiples of `n` is itself a multiple of `n`. */
  lemma AlignedDiff(a: int, b: int, n: int)
    requires n > 0 && a % n == 0 && b % n == 0
    ensures (b - a) % n == 0 && a + n * ((b - a) / n) == b
  {
    assert b - a == n * (b / n - a / n);
    MultipleModIsZero(n, b / n - a / n);
  }

  /** The distance `d` between two multiples of `n` is a whole number of `n`s, no more than `d`
      itself. */
  lemma ExactQuotient(a: int, d: int, n: int)
    requires n > 0 && d >= 0 && a % n == 0 && (a + d) % n == 0
    ensures a + (d / n) * n == a + d && 0 <= d / n <= d
  {
    AlignedDiff(a, a + d, n);
    DivIsSmaller(d, n);
  }

  /** Counting in steps of `n` up to `b`, from `a` and from `a + n`, takes one step more from
      `a`. */
  lemma CountStep(n: int, a: int, b: int, c: int, c': int)
    requires n > 0 && a + c * n == b && a + n + c' * n == b
    ensures c == c' + 1
  {
    assert (c' + 1) * n == c' * n + n;
    MulCancel(n, c, c' + 1);
  }

  /** `l` copies of `s` are `l - 1` copies and one more. */
  lemma MulPred(s: int, l: int)
    ensures s * l == (l - 1) * s + s
  {
  }

  /** A positive factor can be cancelled. */
  lemma MulCancel(n: int, a: int, b: int)
    requires n > 0 && a * n == b * n
    ensures a == b
  {
    if a < b {
      MulAtLeast(n, b - a);
    } else if b < a {
      MulAtLeast(n, a - b);
    }
  }

  /** Dividing a natural number by a positive divisor does not make it larger. */
  lemma DivIsSmaller(x: int, d: int)
    requires x >= 0 && d >= 1
    ensures 0 <= x / d <= x
  {
    if x / d > 0 {
      MulAtLeast(x / d, d);
      assert x == d * (x / d) + x % d;
    }
  }

  /** Adding less than `s` to a multiple of `s` does not change the quotient by a multiple `e`
      of `s`. */
  lemma SameQuotient(base: int, o: int, s: int, e: int)
    requires s > 0 && e > 0 && base >= 0 && base % s == 0 && 0 <= o < s && e % s == 0
    ensures (base + o) / e == base / e
  {
    var q, r := base / e, base % e;
    assert base == e * q + r;
    assert r % s == 0 by {
      assert e == s * (e / s);
      assert base == s * (base / s);
      assert r == s * (base / s - e / s * q);
      MultipleModIsZero(s, base / s - e / s * q);
    }
    AlignedGap(r, e, s);
    DivModUnique(e, q, r + o, base + o);
  }

  /** An address less than `s` above a multiple of `s` lies that far above it modulo `s`. */
  lemma OffsetIsMod(base: int, o: int, s: int)
    requires s > 0 && base >= 0 && base % s == 0 && 0 <= o < s
    ensures (base + o) % s == o
  {
    DivModUnique(s, base / s, o, base + o);
  }
}

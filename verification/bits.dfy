/** Bitwise operations on machine words, stated through the set of bit positions a word holds.

    Every operation here is defined by halving (`v / 2` and `v % 2`), so that the proofs about
    them are inductions over linear arithmetic. A word `v` below `2^n` is determined by the
    positions of its set bits, `BitsOf(v, n)`, and every set of positions below `n` is the bit
    pattern of exactly one such word, `BitsValue(s, n)`. The crate's `&`, `|` and `& !` are then
    intersection, union and difference of bit sets, and a shifted field is a word built with
    `Join`. */
module Bits {
  import opened Words

  /** Bit `k` of `v` is set: `v & (1 << k) != 0`. */
  predicate Bit(v: nat, k: nat)
  {
    if k == 0 then v % 2 == 1 else Bit(v / 2, k - 1)
  }

  /** `v >> n`. */
  function Shr(v: nat, n: nat): nat
  {
    if n == 0 then v else Shr(v / 2, n - 1)
  }

  /** `v & ((1 << n) - 1)`: the low `n` bits of `v`. */
  function Low(v: nat, n: nat): (r: nat)
    ensures r < Pow2(n)
  {
    if n == 0 then 0 else v % 2 + 2 * Low(v / 2, n - 1)
  }

  /** `(x & ((1 << n) - 1)) | (y << n)`: the low `n` bits of `x` below the bits of `y`. */
  function Join(x: nat, n: nat, y: nat): nat
  {
    if n == 0 then y else x % 2 + 2 * Join(x / 2, n - 1, y)
  }

  /** No bit of zero is set. */
  lemma {:induction false} NoBitOfZero(k: nat)
    ensures !Bit(0, k)
  {
    if k > 0 {
      NoBitOfZero(k - 1);
    }
  }

  /** The bits of a join: below `n` those of the low part, from `n` on those of the high part. */
  lemma {:induction false} BitOfJoin(x: nat, n: nat, y: nat, k: nat)
    ensures Bit(Join(x, n, y), k) == if k < n then Bit(x, k) else Bit(y, k - n)
  {
    if n > 0 && k > 0 {
      BitOfJoin(x / 2, n - 1, y, k - 1);
    }
  }

  /** `v & ((1 << n) - 1)` keeps the bits below `n` and clears the others. */
  lemma {:induction false} BitOfLow(v: nat, n: nat, k: nat)
    ensures Bit(Low(v, n), k) == (k < n && Bit(v, k))
  {
    if n == 0 {
      NoBitOfZero(k);
    } else if k > 0 {
      BitOfLow(v / 2, n - 1, k - 1);
    }
  }

  /** `v >> n` moves bit `n + k` to position `k`. */
  lemma {:induction false} BitOfShr(v: nat, n: nat, k: nat)
    ensures Bit(Shr(v, n), k) == Bit(v, n + k)
  {
    if n > 0 {
      BitOfShr(v / 2, n - 1, k);
    }
  }

  /** A word below `2^n` has no bit at `n` or above. */
  lemma {:induction false} BitAboveWidth(v: nat, n: nat, k: nat)
    requires v < Pow2(n) && n <= k
    ensures !Bit(v, k)
  {
    if n == 0 {
      NoBitOfZero(k);
    } else {
      BitAboveWidth(v / 2, n - 1, k - 1);
    }
  }

  /** Two words below `2^n` with the same bits are equal. */
  lemma {:induction false} BitsExt(a: nat, b: nat, n: nat)
    requires a < Pow2(n) && b < Pow2(n)
    requires forall k: nat :: k < n ==> Bit(a, k) == Bit(b, k)
    ensures a == b
  {
    if n > 0 {
      forall k: nat | k < n - 1
        ensures Bit(a / 2, k) == Bit(b / 2, k)
      {
        assert Bit(a, k + 1) == Bit(b, k + 1);
      }
      BitsExt(a / 2, b / 2, n - 1);
      assert Bit(a, 0) == Bit(b, 0);
    }
  }

  /** A join of a word and a word below `2^m` stays below `2^(n + m)`. */
  lemma {:induction false} JoinBound(x: nat, n: nat, y: nat, m: nat)
    requires y < Pow2(m)
    ensures Join(x, n, y) < Pow2(n + m)
  {
    if n > 0 {
      JoinBound(x / 2, n - 1, y, m);
      assert Pow2(n + m) == 2 * Pow2(n - 1 + m);
    }
  }

  /** Every word is the join of its low `n` bits and the rest. */
  lemma {:induction false} JoinSplit(v: nat, n: nat)
    ensures Join(v, n, Shr(v, n)) == v
  {
    if n > 0 {
      JoinSplit(v / 2, n - 1);
    }
  }

  /** `v >> n` is division by `2^n`. */
  lemma {:induction false} ShrIsDiv(v: nat, n: nat)
    ensures Shr(v, n) == v / Pow2(n)
  {
    if n > 0 {
      ShrIsDiv(v / 2, n - 1);
      DivDiv(v, 2, Pow2(n - 1));
    }
  }

  /** A join is the sum of the low bits and the shifted high part. */
  lemma {:induction false} JoinIsSum(x: nat, n: nat, y: nat)
    ensures Join(x, n, y) == Low(x, n) + Pow2(n) * y
  {
    if n > 0 {
      JoinIsSum(x / 2, n - 1, y);
      assert Pow2(n) * y == 2 * (Pow2(n - 1) * y);
    }
  }

  /** The low bits are the remainder modulo `2^n`. */
  lemma LowIsMod(v: nat, n: nat)
    ensures Low(v, n) == v % Pow2(n)
  {
    JoinSplit(v, n);
    JoinIsSum(v, n, Shr(v, n));
    DivModUnique(Pow2(n), Shr(v, n), Low(v, n), v);
  }

  /** Dividing by a product is dividing by each factor in turn. */
  lemma DivDiv(x: nat, p: int, q: int)
    requires p > 0 && q > 0
    ensures x / (p * q) == x / p / q
  {
    var a, b := x / p / q, (x / p) % q;
    assert x == p * (x / p) + x % p;
    assert x / p == q * a + b;
    assert x == (p * q) * a + (p * b + x % p) by {
      assert p * (x / p) == p * (q * a + b);
    }
    MulMonotone(p, b, q - 1);
    DivModUnique(p * q, a, p * b + x % p, x);
  }

  /** The word whose set bits below `n` are the members of `s`. */
  function BitsValue(s: set<nat>, n: nat): (r: nat)
    ensures r < Pow2(n)
  {
    if n == 0 then 0
    else
      var r := Join(BitsValue(s, n - 1), n - 1, if n - 1 in s then 1 else 0);
      JoinBound(BitsValue(s, n - 1), n - 1, if n - 1 in s then 1 else 0, 1);
      r
  }

  /** The bits of `BitsValue(s, n)` are exactly the members of `s` below `n`. */
  lemma {:induction false} BitOfBitsValue(s: set<nat>, n: nat, k: nat)
    ensures Bit(BitsValue(s, n), k) == (k < n && k in s)
  {
    if n == 0 {
      NoBitOfZero(k);
    } else {
      var c := if n - 1 in s then 1 else 0;
      BitOfJoin(BitsValue(s, n - 1), n - 1, c, k);
      if k < n - 1 {
        BitOfBitsValue(s, n - 1, k);
      } else if k > n - 1 {
        NoBitOfZero(k - n);
      }
    }
  }

  /** The positions of the set bits of `v` below `n`. */
  function BitsOf(v: nat, n: nat): (r: set<nat>)
    ensures forall k: nat :: k in r <==> k < n && Bit(v, k)
  {
    set k: nat | k < n && Bit(v, k)
  }

  /** A word below `2^n` is recovered from its bits. */
  lemma BitsRoundTrip(v: nat, n: nat)
    requires v < Pow2(n)
    ensures BitsValue(BitsOf(v, n), n) == v
  {
    forall k: nat | k < n
      ensures Bit(BitsValue(BitsOf(v, n), n), k) == Bit(v, k)
    {
      BitOfBitsValue(BitsOf(v, n), n, k);
    }
    BitsExt(BitsValue(BitsOf(v, n), n), v, n);
  }

  /** A set of positions below `n` is recovered from its word. */
  lemma BitsOfValue(s: set<nat>, n: nat)
    requires forall k :: k in s ==> k < n
    ensures BitsOf(BitsValue(s, n), n) == s
  {
    forall k: nat
      ensures k in BitsOf(BitsValue(s, n), n) <==> k in s
    {
      BitOfBitsValue(s, n, k);
    }
  }

  /** `a & b` on `n`-bit words. */
  function And(a: nat, b: nat, n: nat): (r: nat)
    ensures r < Pow2(n)
  {
    BitsValue(BitsOf(a, n) * BitsOf(b, n), n)
  }

  /** `a | b` on `n`-bit words. */
  function Or(a: nat, b: nat, n: nat): (r: nat)
    ensures r < Pow2(n)
  {
    BitsValue(BitsOf(a, n) + BitsOf(b, n), n)
  }

  /** `a & !b` on `n`-bit words. */
  function AndNot(a: nat, b: nat, n: nat): (r: nat)
    ensures r < Pow2(n)
  {
    BitsValue(BitsOf(a, n) - BitsOf(b, n), n)
  }

  /** The bitwise operations act bit by bit. */
  lemma BitOfOps(a: nat, b: nat, n: nat, k: nat)
    ensures Bit(And(a, b, n), k) == (k < n && Bit(a, k) && Bit(b, k))
    ensures Bit(Or(a, b, n), k) == (k < n && (Bit(a, k) || Bit(b, k)))
    ensures Bit(AndNot(a, b, n), k) == (k < n && Bit(a, k) && !Bit(b, k))
  {
    BitOfBitsValue(BitsOf(a, n) * BitsOf(b, n), n, k);
    BitOfBitsValue(BitsOf(a, n) + BitsOf(b, n), n, k);
    BitOfBitsValue(BitsOf(a, n) - BitsOf(b, n), n, k);
  }

  /** `(v >> lo) & ((1 << w) - 1)`: the `w`-bit field of `v` starting at bit `lo`. */
  function Field(v: nat, lo: nat, w: nat): (r: nat)
    ensures r < Pow2(w)
  {
    Low(Shr(v, lo), w)
  }

  /** Bit `k` of a field is bit `lo + k` of the word. */
  lemma BitOfField(v: nat, lo: nat, w: nat, k: nat)
    ensures Bit(Field(v, lo, w), k) == (k < w && Bit(v, lo + k))
  {
    BitOfLow(Shr(v, lo), w, k);
    BitOfShr(v, lo, k);
  }

  /** `(v & !(((1 << w) - 1) << lo)) | (x << lo)`: `v` with its `w`-bit field at `lo` replaced
      by the low `w` bits of `x`. */
  function SetField(v: nat, lo: nat, w: nat, x: nat): nat
  {
    Join(v, lo, Join(x, w, Shr(v, lo + w)))
  }

  /** Replacing a field writes `x` into bits `lo..lo+w` and keeps every other bit. */
  lemma BitOfSetField(v: nat, lo: nat, w: nat, x: nat, k: nat)
    ensures Bit(SetField(v, lo, w, x), k) ==
      if lo <= k < lo + w then Bit(x, k - lo) else Bit(v, k)
  {
    var hi := Shr(v, lo + w);
    BitOfJoin(v, lo, Join(x, w, hi), k);
    if lo <= k {
      BitOfJoin(x, w, hi, k - lo);
      if lo + w <= k {
        BitOfShr(v, lo + w, k - lo - w);
      }
    }
  }

  /** `v >> n` of a word below `2^(n + m)` is below `2^m`. */
  lemma {:induction false} ShrBound(v: nat, n: nat, m: nat)
    requires v < Pow2(n + m)
    ensures Shr(v, n) < Pow2(m)
  {
    if n > 0 {
      assert Pow2(n + m) == 2 * Pow2(n - 1 + m);
      ShrBound(v / 2, n - 1, m);
    }
  }

  /** Replacing a field that lies inside an `n`-bit word keeps the word below `2^n`. */
  lemma SetFieldBound(v: nat, lo: nat, w: nat, x: nat, n: nat)
    requires v < Pow2(n) && lo + w <= n
    ensures SetField(v, lo, w, x) < Pow2(n)
  {
    var hi := Shr(v, lo + w);
    ShrBound(v, lo + w, n - (lo + w));
    JoinBound(x, w, hi, n - (lo + w));
    JoinBound(v, lo, Join(x, w, hi), n - lo);
  }

  /** Reading back a field just written gives the written value, truncated to the field. */
  lemma FieldOfSetField(v: nat, lo: nat, w: nat, x: nat)
    ensures Field(SetField(v, lo, w, x), lo, w) == Low(x, w)
  {
    forall k: nat | k < w
      ensures Bit(Field(SetField(v, lo, w, x), lo, w), k) == Bit(Low(x, w), k)
    {
      BitOfField(SetField(v, lo, w, x), lo, w, k);
      BitOfSetField(v, lo, w, x, lo + k);
      BitOfLow(x, w, k);
    }
    BitsExt(Field(SetField(v, lo, w, x), lo, w), Low(x, w), w);
  }

  /** `(1 << m) - 1` has exactly the bits below `m`. */
  lemma {:induction false} BitOfOnes(m: nat, k: nat)
    ensures Bit(Pow2(m) - 1, k) == (k < m)
  {
    if m == 0 {
      NoBitOfZero(k);
    } else if k > 0 {
      BitOfOnes(m - 1, k - 1);
    }
  }

  /** A word with no bit from `n` up to its width is below `2^n`. */
  lemma BitsBelow(v: nat, n: nat, width: nat)
    requires v < Pow2(width) && n <= width
    requires forall k: nat :: n <= k < width ==> !Bit(v, k)
    ensures v < Pow2(n)
  {
    if n < width {
      Pow2Increasing(n, width);
    }
    forall k: nat | k < width
      ensures Bit(v, k) == Bit(Low(v, n), k)
    {
      BitOfLow(v, n, k);
    }
    BitsExt(v, Low(v, n), width);
  }

  /** A word with no bit below `n` is a multiple of `2^n`. */
  lemma BitsAligned(v: nat, n: nat)
    requires forall k: nat :: k < n ==> !Bit(v, k)
    ensures v % Pow2(n) == 0
  {
    forall k: nat | k < n
      ensures Bit(Low(v, n), k) == Bit(0, k)
    {
      BitOfLow(v, n, k);
      NoBitOfZero(k);
    }
    BitsExt(Low(v, n), 0, n);
    LowIsMod(v, n);
  }
}

/** 64-by-32-bit division by shift and subtract (mmc.c).  The subset types make every step prove that it
    does not overflow. */
module Division {
  import opened Words

  const TWO63: nat := 0x8000_0000_0000_0000
  const TWO64: nat := 0x1_0000_0000_0000_0000

  type u32 = x: int | 0 <= x < TWO32
  type u64 = x: int | 0 <= x < TWO64

  function Pow2(k: nat): (r: nat)
    ensures r > 0
  {
    if k == 0 then 1 else 2 * Pow2(k - 1)
  }

  /** Halving a shifted divisor is exact until the shift is used up. */
  lemma Halve(base: nat, k: nat)
    ensures k > 0 ==> base * Pow2(k) / 2 == base * Pow2(k - 1) && Pow2(k) / 2 == Pow2(k - 1)
  {
    if k > 0 {
      assert base * Pow2(k) == 2 * (base * Pow2(k - 1));
    }
  }

  lemma Factor(a: nat, b: nat)
    requires b > 0
    ensures a <= a * b
  {
  }

  /** What the subtracting loop keeps: `res * base + rem` is the dividend and `rem` is below twice the shifted
      divisor `b == base * d`. */
  ghost predicate Dividing(n: nat, base: nat, rem: nat, b: nat, res: nat, d: nat, k: nat) {
    && n == res * base + rem
    && (d == 0 ==> rem < base)
    && (d > 0 ==> d == Pow2(k) && b == base * d && rem < 2 * b)
  }

  lemma DividingSubtract(n: nat, base: nat, rem: nat, b: nat, res: nat, d: nat)
    requires base > 0 && b == base * d && b <= rem && n == res * base + rem
    ensures res + d <= n && n == (res + d) * base + (rem - b)
  {
    assert (res + d) * base == res * base + d * base;
    Factor(res + d, base);
  }

  lemma DividingStep(n: nat, base: nat, rem: nat, b: nat, res: nat, d: nat, k: nat, rem': nat, res': nat)
    requires base > 0 && d > 0 && Dividing(n, base, rem, b, res, d, k)
    requires rem' == (if rem >= b then rem - b else rem) && n == res' * base + rem'
    ensures Dividing(n, base, rem', b / 2, res', d / 2, if k > 0 then k - 1 else 0)
  {
    Halve(base, k);
  }

  /** Dividing the high word first takes a multiple of the divisor off the dividend. */
  lemma ReduceHigh(n: nat, base: nat)
    requires base > 0
    ensures var q := n / TWO32 / base;
            q <= n / TWO32 && q * base <= n / TWO32 && q * base * TWO32 <= n && q * TWO32 * base == q * base * TWO32
  {
    var h := n / TWO32;
    var q := h / base;
    assert h == q * base + h % base;
    Factor(q, base);
    assert n == h * TWO32 + n % TWO32;
    assert q * base * TWO32 <= h * TWO32;
    assert q * TWO32 * base == q * base * TWO32;
  }

  /** div64_32: exact quotient and remainder, whatever the operands. */
  method Div64By32(n: u64, base: u32) returns (quotient: u64, remainder: u32)
    requires base > 0
    ensures quotient == n / base && remainder == n % base
  {
    var rem: u64, res: u64 := n, 0;
    var high: u32 := rem / TWO32;
    if high >= base {
      ReduceHigh(n, base);
      high := high / base;
      res := high * TWO32;
      var product: u32 := high * base;
      rem := rem - product * TWO32;
    }
    var b: u64, d: u64, k := ShiftUp(rem, base);
    while d != 0
      invariant Dividing(n, base, rem, b, res, d, k)
      decreases d
    {
      ghost var rem0, res0 := rem, res;
      if rem >= b {
        DividingSubtract(n, base, rem, b, res, d);
        rem := rem - b;
        res := res + d;
      }
      DividingStep(n, base, rem0, b, res0, d, k, rem, res);
      b, d, k := b / 2, d / 2, if k > 0 then k - 1 else 0;
    }
    DivModUnique(base, n, res, rem);
    quotient, remainder := res, rem;
  }

  /** The first loop of div64_32: shift the divisor up until it covers the dividend or fills the word. */
  method ShiftUp(rem: u64, base: u32) returns (b: u64, d: u64, ghost k: nat)
    requires base > 0
    ensures d == Pow2(k) && b == base * d && rem < 2 * b
  {
    b, d, k := base, 1, 0;
    while b < TWO63 && b < rem
      invariant 0 < b && d == Pow2(k) && b == base * d
      decreases TWO64 - b
    {
      Factor(d, base);
      assert base * (d + d) == b + b;
      b, d, k := b + b, d + d, k + 1;
    }
  }

  /** lldiv through do_div: the short path for dividends below 2^32, the long division otherwise. */
  method Lldiv(dividend: u64, divisor: u32) returns (r: u64)
    requires divisor > 0
    ensures r == dividend / divisor
  {
    var rem: u32;
    if dividend / TWO32 == 0 {
      var short: u32 := dividend;
      rem := short % divisor;
      r := short / divisor;
      assert short / divisor <= short by {
        assert short == short / divisor * divisor + short % divisor;
        Factor(short / divisor, divisor);
      }
    } else {
      r, rem := Div64By32(dividend, divisor);
    }
  }
}

/** The card clock divider (sunxi_host0_2_v4p1.c). */
module Clock {
  import opened Words

  const OSC_HZ: nat := 24_000_000

  /** The module clock register: source in bits 24-25, shift `n` in bits 16-17, `m - 1` in bits 0-3. */
  class Host {
    const pll6: nat           // sunxi_clock_get_pll6(), in MHz
    var mclk: nat

    constructor (pll6: nat)
      ensures this.pll6 == pll6
    {
      this.pll6, mclk := pll6, 0;
    }

    function Source(src: nat): nat {
      if src == 0 then OSC_HZ else if src == 1 then U32(pll6 * 2 * 1_000_000) else 0
    }

    /** mmc_set_mclk. */
    method SetMclk(clk: nat)
      requires 0 < clk && U32(2 * clk) != 0
      modifies this
      ensures var src := SourceFor(clk);
              var div := Divider(Source(src), clk);
              mclk == Encode(src, Field(div))
    {
      var src := if clk <= 4_000_000 then 0 else 1;
      var sclk := Source(src);
      var x, y := U32(2 * sclk + clk), U32(2 * clk);
      QuotientNatural(x, y);
      var div: nat := x / y;
      div := if div == 0 then 1 else div;
      assert div == Divider(sclk, clk);
      var n, m;
      if div > 128 {
        m, n := 1, 0;
      } else if div > 64 {
        n, m := 3, div / 8;
      } else if div > 32 {
        n, m := 2, div / 4;
      } else if div > 16 {
        n, m := 1, div / 2;
      } else {
        n, m := 0, div;
      }
      mclk := src * 0x100_0000 + n * 0x1_0000 + (m - 1);
    }

    /** mmc_get_mclk. */
    method GetMclk() returns (hz: nat)
      ensures hz == Source(mclk / 0x100_0000 % 4) / Shift(mclk / 0x1_0000 % 4) / (mclk % 16 + 1)
    {
      var m := mclk % 16;
      var n := mclk / 0x1_0000 % 4;
      var src := mclk / 0x100_0000 % 4;
      var sclk := Source(src);
      QuotientNatural(sclk, Shift(n));
      QuotientNatural(sclk / Shift(n), m + 1);
      hz := sclk / Shift(n) / (m + 1);
    }
  }

  lemma EncodedSource(src: nat, n: nat, m: nat)
    requires n < 4 && 0 < m <= 16
    ensures (src * 0x100_0000 + n * 0x1_0000 + (m - 1)) / 0x100_0000 == src
  {
  }

  function Shift(n: nat): (r: nat)
    requires n < 4
    ensures r > 0
  {
    if n == 0 then 1 else if n == 1 then 2 else if n == 2 then 4 else 8
  }

  function SourceFor(clk: nat): nat {
    if clk <= 4_000_000 then 0 else 1
  }

  /** The divider the request rounds to. */
  function Divider(sclk: nat, clk: nat): (r: nat)
    requires U32(2 * clk) != 0
    ensures r > 0
  {
    var x, y := U32(2 * sclk + clk), U32(2 * clk);
    QuotientNatural(x, y);
    if x / y == 0 then 1 else x / y
  }

  datatype Fields = Fields(n: nat, m: nat)

  /** How a divider is split into a shift and a factor. */
  function Field(div: nat): (f: Fields)
    requires div > 0
    ensures f.n < 4 && 0 < f.m <= 16
  {
    if div > 128 then Fields(0, 1)
    else if div > 64 then Fields(3, div / 8)
    else if div > 32 then Fields(2, div / 4)
    else if div > 16 then Fields(1, div / 2)
    else Fields(0, div)
  }

  function Encode(src: nat, f: Fields): nat
    requires f.m > 0
  {
    src * 0x100_0000 + f.n * 0x1_0000 + (f.m - 1)
  }

  /** The divisor the hardware applies. */
  function Effective(f: Fields): nat
    requires f.n < 4
  {
    Shift(f.n) * f.m
  }

  /** Without 32-bit wrap-around the divider is the quotient of source and request, rounded to the nearest. */
  lemma DividerIsNearest(sclk: nat, clk: nat)
    requires clk > 0 && 2 * sclk + clk < TWO32 && 2 * clk < TWO32 && clk <= 2 * sclk
    ensures var d := Divider(sclk, clk); 2 * sclk - clk < 2 * clk * d <= 2 * sclk + clk
  {
    var x, y := 2 * sclk + clk, 2 * clk;
    assert x == x / y * y + x % y;
    assert x / y > 0;
  }

  /** The fields decode to what was encoded. */
  lemma DecodesExactly(src: nat, f: Fields)
    requires src < 2 && f.n < 4 && 0 < f.m <= 16
    ensures var r := Encode(src, f);
            r / 0x100_0000 % 4 == src && r / 0x1_0000 % 4 == f.n && r % 16 + 1 == f.m
  {
  }

  /** Up to 128 the applied divisor never exceeds the divider and falls short of it by at most one ninth part. */
  lemma DivisorBound(div: nat)
    requires 0 < div <= 128
    ensures var e := Effective(Field(div)); 0 < e <= div && 8 * div <= 9 * e
  {
  }

  lemma Compose(x: nat, a: nat, b: nat, q: nat, r: nat, r': nat)
    requires a > 0 && b > 0 && r < b && r' < a && x == (q * b + r) * a + r'
    ensures a * b > 0 && x / (a * b) == q
  {
    Multiples(a, r, b);
    assert x == q * (a * b) + (r * a + r');
    DivModUnique(a * b, x, q, r * a + r');
  }

  lemma TwoDivisions(x: nat, a: nat, b: nat)
    requires a > 0 && b > 0
    ensures a * b > 0 && x / a / b == x / (a * b)
  {
    QuotientNatural(x, a);
    var q := x / a;
    QuotientNatural(q, b);
    Compose(x, a, b, q / b, q % b, x % a);
  }

  /** The clock read back after a request is the source divided by the applied divisor; up to a divider of 128
      that divisor is within the bound, and above it the source is passed through undivided. */
  method SetThenGet(host: Host, clk: nat) returns (hz: nat)
    requires 0 < clk && U32(2 * clk) != 0
    modifies host
    ensures ReadBack(host.pll6, clk, hz)
    ensures host.mclk / 0x100_0000 == if clk <= 4_000_000 then 0 else 1
    ensures 187_500 <= clk <= 4_000_000 ==> 4 * clk <= 5 * hz && 4 * hz <= 5 * clk
    ensures var pll := host.pll6 * 2_000_000;
            4_000_000 < clk <= pll && 2 * pll + clk < TWO32 && pll <= 128 * clk ==>
              2 * clk <= 3 * hz && 2 * hz <= 3 * clk
    ensures 0 < clk < 180_000 ==> hz == 24_000_000
  {
    hz := DividedSource(host, clk);
    ClockBound(host.pll6, clk, hz);
  }

  /** What is read back after a request for `clk`. */
  ghost predicate ReadBack(pll6: nat, clk: nat, hz: nat)
    requires 0 < clk && U32(2 * clk) != 0
  {
    var sclk := if clk <= 4_000_000 then 24_000_000 else U32(pll6 * 2 * 1_000_000);
    var div := Divider(sclk, clk);
    var e := Effective(Field(div));
    e > 0 && hz == sclk / e && (div <= 128 ==> e <= div && 8 * div <= 9 * e) && (div > 128 ==> hz == sclk)
  }

  method DividedSource(host: Host, clk: nat) returns (hz: nat)
    requires 0 < clk && U32(2 * clk) != 0
    modifies host
    ensures ReadBack(host.pll6, clk, hz)
    ensures host.mclk / 0x100_0000 == if clk <= 4_000_000 then 0 else 1
  {
    host.SetMclk(clk);
    SelectedSource(host, clk, host.mclk);
    hz := host.GetMclk();
    ReadBackOf(host, clk, host.mclk, hz);
  }

  /** The register after a request for `clk`. */
  predicate SetFor(host: Host, clk: nat, mclk: nat)
    requires 0 < clk && U32(2 * clk) != 0
  {
    var src := SourceFor(clk);
    mclk == Encode(src, Field(Divider(host.Source(src), clk)))
  }

  lemma SelectedSource(host: Host, clk: nat, mclk: nat)
    requires 0 < clk && U32(2 * clk) != 0 && SetFor(host, clk, mclk)
    ensures mclk / 0x100_0000 == if clk <= 4_000_000 then 0 else 1
  {
    var f := Field(Divider(host.Source(SourceFor(clk)), clk));
    EncodedSource(SourceFor(clk), f.n, f.m);
  }

  lemma ReadBackOf(host: Host, clk: nat, mclk: nat, hz: nat)
    requires 0 < clk && U32(2 * clk) != 0 && SetFor(host, clk, mclk)
    requires hz == host.Source(mclk / 0x100_0000 % 4) / Shift(mclk / 0x1_0000 % 4) / (mclk % 16 + 1)
    ensures ReadBack(host.pll6, clk, hz)
  {
    var src := SourceFor(clk);
    var f := Field(Divider(host.Source(src), clk));
    DecodedClock(host, mclk, src, f);
    SourceNumbers(host, clk);
    DividedOnce(host.pll6, clk, f, hz);
  }

  /** What the register selects, read back field by field. */
  lemma DecodedClock(host: Host, mclk: nat, src: nat, f: Fields)
    requires src < 2 && f.n < 4 && 0 < f.m <= 16 && mclk == Encode(src, f)
    ensures host.Source(mclk / 0x100_0000 % 4) / Shift(mclk / 0x1_0000 % 4) / (mclk % 16 + 1) ==
            host.Source(src) / Shift(f.n) / f.m
  {
    DecodesExactly(src, f);
  }

  lemma SourceNumbers(host: Host, clk: nat)
    ensures host.Source(SourceFor(clk)) == if clk <= 4_000_000 then 24_000_000 else U32(host.pll6 * 2 * 1_000_000)
  {
  }

  lemma DividedOnce(pll6: nat, clk: nat, f: Fields, hz: nat)
    requires 0 < clk && U32(2 * clk) != 0 && f.n < 4 && f.m > 0
    requires var sclk := if clk <= 4_000_000 then 24_000_000 else U32(pll6 * 2 * 1_000_000);
             f == Field(Divider(sclk, clk)) && hz == sclk / Shift(f.n) / f.m
    ensures ReadBack(pll6, clk, hz)
  {
    var sclk := if clk <= 4_000_000 then 24_000_000 else U32(pll6 * 2 * 1_000_000);
    var div := Divider(sclk, clk);
    TwoDivisions(sclk, Shift(f.n), f.m);
    if div <= 128 {
      DivisorBound(div);
    }
  }

  /** The clock read back against the clock asked for, in numbers. */
  lemma ClockBound(pll6: nat, clk: nat, hz: nat)
    requires 0 < clk && U32(2 * clk) != 0 && ReadBack(pll6, clk, hz)
    ensures 187_500 <= clk <= 4_000_000 ==> 4 * clk <= 5 * hz && 4 * hz <= 5 * clk
    ensures var pll := pll6 * 2_000_000;
            4_000_000 < clk <= pll && 2 * pll + clk < TWO32 && pll <= 128 * clk ==>
              2 * clk <= 3 * hz && 2 * hz <= 3 * clk
    ensures 0 < clk < 180_000 ==> hz == 24_000_000
  {
    var sclk := if clk <= 4_000_000 then 24_000_000 else U32(pll6 * 2 * 1_000_000);
    var div := Divider(sclk, clk);
    if clk <= 2 * sclk && 2 * sclk + clk < TWO32 && sclk <= 128 * clk && clk <= sclk {
      DividerIsNearest(sclk, clk);
      AtMost(div, 128, sclk, clk);
      Near(sclk, clk, div, Effective(Field(div)), hz);
    }
    if clk < 180_000 {
      DividerIsNearest(sclk, clk);
      Multiples(2 * clk, div, 132);
    }
  }

  /** A rounded divider of a source of at most `k` times the request is at most `k`. */
  lemma AtMost(div: nat, k: nat, sclk: nat, clk: nat)
    requires clk > 0 && 2 * clk * div <= 2 * sclk + clk && sclk <= k * clk
    ensures div <= k
  {
    assert (k + 1) * (2 * clk) == 2 * (k * clk) + 2 * clk;
    if div > k {
      Multiples(2 * clk, k + 1, div);
    }
  }

  /** From the rounding of the divider and the loss of the divisor to the clock itself. */
  lemma Near(sclk: nat, clk: nat, div: nat, e: nat, hz: nat)
    requires 100 <= clk <= sclk && 2 * sclk - clk < 2 * clk * div <= 2 * sclk + clk
    requires 0 < e <= div && 8 * div <= 9 * e && hz == sclk / e
    ensures 2 * clk <= 3 * hz && 2 * hz <= 3 * clk
    ensures 6 <= div ==> 4 * clk <= 5 * hz && 4 * hz <= 5 * clk
  {
    assert sclk == hz * e + sclk % e;
    Upper(sclk, clk, div, e, hz);
    Lower(sclk, clk, div, e, hz);
  }

  lemma Upper(sclk: nat, clk: nat, div: nat, e: nat, hz: nat)
    requires 0 < clk && 2 * sclk - clk < 2 * clk * div && 0 < e <= div && 8 * div <= 9 * e && hz * e <= sclk
    ensures 2 * hz <= 3 * clk
    ensures 6 <= div ==> 4 * hz <= 5 * clk
  {
    Scale(2, clk, div);
    if e == 1 {
      assert div == 1;
    } else {
      Multiples(clk, 8 * div, 9 * e);
      Scale(8, div, clk);
      Scale(9, e, clk);
      Multiples(clk, 2, e);
      UpperSteps(hz * e, clk * div, clk * e, clk, sclk);
      Scale(16, hz, e);
      Scale(22, clk, e);
      Cancel(16 * hz, 22 * clk, e);
      if 6 <= div {
        Multiples(clk, 6, e);
        Scale(20, clk, e);
        Cancel(16 * hz, 20 * clk, e);
      }
    }
  }

  lemma Scale(n: nat, a: nat, b: nat)
    ensures n * a * b == n * (a * b) && a * b == b * a
  {
  }

  lemma UpperSteps(a: nat, b: nat, k: nat, clk: nat, sclk: nat)
    requires a <= sclk && 2 * sclk - clk < 2 * b && 8 * b <= 9 * k && 2 * clk <= k
    ensures 16 * a < 22 * k
    ensures 6 * clk <= k ==> 16 * a < 20 * k
  {
  }

  lemma Lower(sclk: nat, clk: nat, div: nat, e: nat, hz: nat)
    requires 100 <= clk <= sclk && 2 * clk * div <= 2 * sclk + clk && 0 < e <= div && sclk < hz * e + e
    ensures 2 * clk <= 3 * hz
    ensures 6 <= div ==> 4 * clk <= 5 * hz
  {
    var x, y := clk * div, (hz + 1) * div;
    assert 2 * clk * div == 2 * x;
    assert (hz + 1) * e == hz * e + e;
    Multiples(hz + 1, e, div);
    assert (hz + 1) * e <= y;
    if div >= 2 {
      LowerByHalf(clk, div, hz);
      if div >= 6 {
        LowerBySixth(clk, div, hz);
      }
    } else {
      assert e == 1;
    }
  }

  lemma LowerByHalf(clk: nat, div: nat, hz: nat)
    requires 2 <= div && clk > 0 && 2 * (clk * div) < 2 * ((hz + 1) * div) + clk
    ensures 3 * clk < 4 * (hz + 1)
  {
    var x, y := clk * div, (hz + 1) * div;
    Multiples(clk, 2, div);
    assert 3 * x < 4 * y;
    assert 3 * clk * div == 3 * x && 4 * (hz + 1) * div == 4 * y;
    Cancel(3 * clk, 4 * (hz + 1), div);
  }

  lemma LowerBySixth(clk: nat, div: nat, hz: nat)
    requires 6 <= div && clk > 0 && 2 * (clk * div) < 2 * ((hz + 1) * div) + clk
    ensures 11 * clk < 12 * (hz + 1)
  {
    var x, y := clk * div, (hz + 1) * div;
    Multiples(clk, 6, div);
    assert 11 * x < 12 * y;
    assert 11 * clk * div == 11 * x && 12 * (hz + 1) * div == 12 * y;
    Cancel(11 * clk, 12 * (hz + 1), div);
  }

  lemma Cancel(a: nat, b: nat, d: nat)
    requires d > 0 && a * d < b * d
    ensures a < b
  {
    Multiples(d, b, a);
  }
}

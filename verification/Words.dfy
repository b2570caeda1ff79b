/** Machine integers as the firmware uses them: unbounded integers with the 32-bit reduction written out. */
module Words {

  const TWO32: nat := 0x1_0000_0000

  datatype Option<+T> = None | Some(value: T)

  type byte = x: int | 0 <= x < 256

  /** The value an `unsigned int` keeps of `x`. */
  function U32(x: int): (r: nat)
    ensures r < TWO32
    ensures 0 <= x < TWO32 ==> r == x
  {
    if 0 <= x < TWO32 then x else x % TWO32
  }

  lemma U32Shift(q: int, x: int)
    ensures U32(q * TWO32 + x) == U32(x)
  {
  }

  function Min(a: nat, b: nat): (r: nat) {
    if a < b then a else b
  }

  lemma Multiples(g: nat, i: nat, j: nat)
    requires g > 0
    ensures (i + 1) * g == i * g + g
    ensures i <= j ==> i * g <= j * g && (j - i) * g == j * g - i * g
    ensures i < j ==> (i + 1) * g <= j * g
  {
    if i <= j {
      assert j * g == (j - i) * g + i * g;
    }
  }

  lemma DivModUnique(g: nat, x: nat, q: nat, r: nat)
    requires g > 0 && x == q * g + r && r < g
    ensures x / g == q && x % g == r
  {
    assert x == x / g * g + x % g;
    Multiples(g, x / g, q);
    Multiples(g, q, x / g);
  }

  lemma {:induction false} QuotientNatural(a: nat, b: nat)
    requires b > 0
    ensures 0 <= a / b <= a
    decreases a
  {
    if a < b {
      DivModUnique(b, a, 0, a);
    } else {
      QuotientNatural(a - b, b);
      var q, r := (a - b) / b, (a - b) % b;
      assert a - b == q * b + r;
      assert (q + 1) * b == q * b + b;
      DivModUnique(b, a, q + 1, r);
    }
  }

  /** The four bytes of a 32-bit value, low byte first. */
  function Le32(x: nat): (r: seq<byte>)
    ensures |r| == 4
  {
    [x % 256, x / 256 % 256, x / 65536 % 256, x / 16777216 % 256]
  }

  function FromLe32(s: seq<byte>): nat
    requires |s| == 4
  {
    s[0] as int + 256 * (s[1] as int) + 65536 * (s[2] as int) + 16777216 * (s[3] as int)
  }

  lemma ByteByByte(x: nat)
    ensures x / 65536 == x / 256 / 256 && x / 16777216 == x / 65536 / 256 && x / TWO32 == x / 16777216 / 256
  {
  }

  lemma Le32RoundTrip(x: nat)
    ensures FromLe32(Le32(x)) == U32(x)
  {
    ByteByByte(x);
    var q1, q2, q3 := x / 256, x / 65536, x / 16777216;
    assert x == q1 * 256 + x % 256;
    assert q1 == q2 * 256 + q1 % 256;
    assert q2 == q3 * 256 + q2 % 256;
    assert q3 == x / TWO32 * 256 + q3 % 256;
    assert x == x / TWO32 * TWO32 + FromLe32(Le32(x));
  }

  lemma FromLe32RoundTrip(s: seq<byte>)
    requires |s| == 4
    ensures Le32(FromLe32(s)) == s
  {
    var x := FromLe32(s);
    var a, b, c, d := s[0] as int, s[1] as int, s[2] as int, s[3] as int;
    assert x / 256 == b + 256 * c + 65536 * d;
    assert x / 65536 == c + 256 * d;
    assert x / 16777216 == d;
  }
}

/** Go's machine-integer operations that the autoscaler relies on, written out
    over Dafny's unbounded `int`: truncating division (Dafny's `/` is
    Euclidean) and 64-bit two's-complement wrap-around. */
module GoInt {

  const MinInt64: int := -0x8000_0000_0000_0000
  const MaxInt64: int := 0x7fff_ffff_ffff_ffff
  const Modulus64: int := 0x1_0000_0000_0000_0000

  function Abs(x: int): nat {
    if x < 0 then -x else x
  }

  /** Go's integer `a / b`: the quotient rounded toward zero. */
  function Quot(a: int, b: int): (q: int)
    requires b != 0
    ensures a >= 0 && b > 0 ==> q == a / b
    ensures a < 0 && b > 0 ==> q == -((-a) / b)
  {
    if (a < 0) == (b < 0) then Abs(a) / Abs(b) else -(Abs(a) / Abs(b))
  }

  /** The int64 value an unbounded result wraps around to. */
  function Wrap64(x: int): (r: int)
    ensures MinInt64 <= r <= MaxInt64
    ensures (r - x) % Modulus64 == 0
    ensures MinInt64 <= x <= MaxInt64 ==> r == x
  {
    (x - MinInt64) % Modulus64 + MinInt64
  }

  /** A whole multiple divides exactly, and a positive one gives a
      quotient of at least one. */
  lemma WholeQuotient(a: int, b: int)
    requires a >= 0 && b > 0 && a % b == 0
    ensures Quot(a, b) * b == a
    ensures a > 0 ==> Quot(a, b) >= 1
  {
    var q := a / b;
    assert a == b * q + a % b;
  }

  lemma MulAtLeast(b: int, k: int)
    requires b > 0 && k >= 1
    ensures b * k >= b
  {
  }

  /** Quotient and remainder are the only pair with the remainder in range. */
  lemma DivModUnique(a: int, b: int, q: int, m: int)
    requires b > 0 && 0 <= m < b && a == b * q + m
    ensures a / b == q && a % b == m
  {
    var q', m' := a / b, a % b;
    assert a == b * q' + m';
    if q' < q {
      assert b * (q - q') == b * q - b * q';
      MulAtLeast(b, q - q');
    } else if q' > q {
      assert b * (q' - q) == b * q' - b * q;
      MulAtLeast(b, q' - q);
    }
  }

  /** Division by a positive divisor is monotone. */
  lemma DivMonotone(a: int, b: int, r: int)
    requires a <= b && r > 0
    ensures a / r <= b / r
  {
    if a / r > b / r {
      assert a == r * (a / r) + a % r;
      assert b == r * (b / r) + b % r;
      assert r * (a / r) - r * (b / r) == r * (a / r - b / r);
      MulAtLeast(r, a / r - b / r);
    }
  }
}

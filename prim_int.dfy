/**
 * The part of `num_traits::PrimInt` that the cube root uses, modelled over
 * mathematical integers: a primitive integer type is its bit width and its
 * signedness, and each operation says when the machine operation would
 * overflow.
 */
module PrimInt {

  /** Two to the power `n`. */
  function Pow2(n: nat): (p: nat)
    ensures p >= 1
  {
    if n == 0 then 1 else 2 * Pow2(n - 1)
  }

  /** Three more bits multiply the power by eight. */
  lemma Pow2PlusThree(n: nat)
    ensures Pow2(n + 3) == 8 * Pow2(n)
  {
    assert Pow2(n + 3) == 2 * Pow2(n + 2);
    assert Pow2(n + 2) == 2 * Pow2(n + 1);
    assert Pow2(n + 1) == 2 * Pow2(n);
  }

  /** Powers of two multiply by adding exponents. */
  lemma {:induction false} Pow2Add(a: nat, b: nat)
    ensures Pow2(a + b) == Pow2(a) * Pow2(b)
  {
    if b > 0 {
      Pow2Add(a, b - 1);
      assert Pow2(a + b) == 2 * Pow2(a + b - 1);
      assert Pow2(b) == 2 * Pow2(b - 1);
    }
  }

  /** A wider shift gives a larger power. */
  lemma {:induction false} Pow2Monotone(a: nat, b: nat)
    requires a <= b
    ensures Pow2(a) <= Pow2(b)
  {
    if a < b {
      Pow2Monotone(a, b - 1);
    }
  }

  /**
   * A primitive integer type: `bits` wide, two's complement when `signed`.
   * `isize` and `usize` are the 16-, 32- or 64-bit types of the target.
   */
  datatype IntType = IntType(bits: nat, signed: bool)
  {
    /** The widths `PrimInt` is implemented for. */
    predicate Valid() {
      bits == 8 || bits == 16 || bits == 32 || bits == 64 || bits == 128
    }

    function Min(): int
      requires bits > 0
    {
      if signed then -(Pow2(bits - 1) as int) else 0
    }

    function Max(): int
      requires bits > 0
    {
      if signed then Pow2(bits - 1) - 1 else Pow2(bits) - 1
    }

    predicate InRange(x: int)
      requires bits > 0
    {
      Min() <= x <= Max()
    }
  }

  const I8 := IntType(8, true)
  const U8 := IntType(8, false)
  const I16 := IntType(16, true)
  const U16 := IntType(16, false)
  const I32 := IntType(32, true)
  const U32 := IntType(32, false)
  const I64 := IntType(64, true)
  const U64 := IntType(64, false)
  const I128 := IntType(128, true)
  const U128 := IntType(128, false)

  /** Every value of a type is below `2^bits`, and its maximum is at least `i8::MAX`. */
  lemma MaxBounds(t: IntType)
    requires t.bits >= 8
    ensures 127 <= t.Max() < Pow2(t.bits)
    ensures t.Min() <= 0
  {
    Pow2Monotone(7, t.bits - 1);
    assert Pow2(t.bits) == 2 * Pow2(t.bits - 1);
  }

  /** Euclidean division is determined by the interval the dividend falls in. */
  lemma DivModUnique(x: int, m: int, q: int)
    requires m > 0 && q * m <= x < q * m + m
    ensures x / m == q && x % m == x - q * m
  {
    var d := x / m - q;
    assert d * m == (x - q * m) - x % m;
    assert d == 0;
  }

  /** Multiplying by a non-negative `d` keeps the order. */
  lemma MulMonotone(a: int, b: int, d: int)
    requires a <= b && 0 <= d
    ensures a * d <= b * d
  {
    var k := b - a;
    assert b * d == a * d + k * d;
  }

  /** Dividing by `d`, then by `k`, is dividing by `d * k`. */
  lemma DivDiv(v: int, d: int, k: int)
    requires d > 0 && k > 0
    ensures v / (d * k) == (v / d) / k
  {
    var q := v / d;
    var qq := q / k;
    assert v == q * d + v % d;
    assert q == qq * k + q % k;
    assert v == qq * (d * k) + ((q % k) * d + v % d) by {
      assert q * d == qq * k * d + (q % k) * d;
    }
    MulMonotone(q % k, k - 1, d);
    assert (k - 1) * d == d * k - d;
    DivModUnique(v, d * k, qq);
  }

  /** `x / d >= b` (for `d > 0`) compares `x` with `b` copies of `d`. */
  lemma FloorDivAtLeast(x: int, b: int, d: int)
    requires d > 0
    ensures x / d >= b <==> x >= b * d
  {
    var q := x / d;
    assert x == q * d + x % d;
    if q >= b {
      MulMonotone(b, q, d);
    } else {
      MulMonotone(q + 1, b, d);
      assert (q + 1) * d == q * d + d;
    }
  }

  /** The facts behind `Wrap`, stated over the modulus `m == 2 * half`. */
  lemma TruncateFacts(x: int, m: int, half: int, signed: bool, r: int)
    requires half >= 1 && m == 2 * half
    requires r == if signed && x % m >= half then x % m - m else x % m
    ensures (if signed then -half else 0) <= r <= (if signed then half - 1 else m - 1)
    ensures (x - r) % m == 0
    ensures (if signed then -half else 0) <= x <= (if signed then half - 1 else m - 1) ==> r == x
  {
    var q := x / m;
    var k := if signed && x % m >= half then q + 1 else q;
    assert x - r == k * m by {
      assert x == q * m + x % m;
    }
    MultipleMod(k, m);
    assert (if signed then -half else 0) <= x <= (if signed then half - 1 else m - 1) ==> r == x by {
      if 0 <= x < m {
        DivModUnique(x, m, 0);
      } else if -half <= x < 0 {
        DivModUnique(x, m, -1);
      }
    }
  }

  /** The values from zero to `MAX` belong to every type. */
  lemma InRangeFromZero(t: IntType, y: int)
    requires t.bits > 0 && 0 <= y <= t.Max()
    ensures t.InRange(y)
  {
  }

  /** A multiple of `m` leaves no remainder. */
  lemma MultipleMod(k: int, m: int)
    requires m > 0
    ensures (k * m) % m == 0
  {
    DivModUnique(k * m, m, k);
  }

  /**
   * Truncation of an integer to `t`'s width: the value of `t` congruent to
   * `x` modulo `2^bits`, i.e. what is left after dropping the high bits.
   */
  function Wrap(t: IntType, x: int): (r: int)
    requires t.bits > 0
    ensures t.InRange(r)
    ensures (x - r) % Pow2(t.bits) == 0
    ensures t.InRange(x) ==> r == x
  {
    var half: int := Pow2(t.bits - 1);
    var m: int := Pow2(t.bits);
    assert m == 2 * half;
    var r := if t.signed && x % m >= half then x % m - m else x % m;
    TruncateFacts(x, m, half, t.signed, r);
    r
  }

  // The operations the cube root applies to its locals. `+`, `-` and `*`
  // panic on overflow in a debug build, so their precondition is that the
  // exact result fits the type; the shift operators only reject shift
  // amounts of `bits` or more.

  function Add(t: IntType, a: int, b: int): int
    requires t.bits > 0 && t.InRange(a) && t.InRange(b) && t.InRange(a + b)
  {
    a + b
  }

  function Sub(t: IntType, a: int, b: int): int
    requires t.bits > 0 && t.InRange(a) && t.InRange(b) && t.InRange(a - b)
  {
    a - b
  }

  function Mul(t: IntType, a: int, b: int): int
    requires t.bits > 0 && t.InRange(a) && t.InRange(b) && t.InRange(a * b)
  {
    a * b
  }

  /** `a << s`: the bits shifted past the width are lost. */
  function Shl(t: IntType, a: int, s: nat): int
    requires t.bits > 0 && t.InRange(a) && s < t.bits
  {
    Wrap(t, a * Pow2(s))
  }

  /** `a >> s`: an arithmetic shift, i.e. division by `2^s` rounded down. */
  function Shr(t: IntType, a: int, s: nat): int
    requires t.bits > 0 && t.InRange(a) && s < t.bits
  {
    a / Pow2(s)
  }

}

/**
 * What an integer cube root is: the largest `r` whose cube does not exceed
 * the input. The digit-by-digit algorithm is proved against this.
 */
module CubeRootSpec {

  /** `n` to the third power. */
  function Cube(n: int): int {
    n * n * n
  }

  /** `r` is the integer (floor) cube root of `v`. */
  predicate IsCbrt(v: int, r: int) {
    0 <= r && Cube(r) <= v < Cube(r + 1)
  }

  /** The gap between consecutive cubes is the digit threshold `3r(r+1)+1`. */
  lemma CubeDifference(r: int)
    ensures Cube(r + 1) - Cube(r) == 3 * r * (r + 1) + 1
  {
    calc {
      Cube(r + 1);
      (r + 1) * (r + 1) * (r + 1);
      (r * r + 2 * r + 1) * (r + 1);
      r * r * r + 3 * r * r + 3 * r + 1;
    }
  }

  /** Doubling the root multiplies the cube by eight. */
  lemma CubeDouble(r: int)
    ensures Cube(2 * r) == 8 * Cube(r)
  {
    calc {
      Cube(2 * r);
      (2 * r) * (2 * r) * (2 * r);
      8 * (r * r * r);
    }
  }

  /** Cubes of non-negative numbers grow with the numbers. */
  lemma {:induction false} CubeStrictlyIncreasing(a: int, b: int)
    requires 0 <= a < b
    ensures Cube(a) < Cube(b)
  {
    CubeDifference(b - 1);
    assert 3 * (b - 1) * b >= 0;
    if a < b - 1 {
      CubeStrictlyIncreasing(a, b - 1);
    }
  }

  /** Cubes of non-negative numbers are ordered like the numbers. */
  lemma CubeOrderReflected(a: int, b: int)
    requires 0 <= a && 0 <= b && Cube(a) < Cube(b)
    ensures a < b
  {
    if b < a {
      CubeStrictlyIncreasing(b, a);
    }
  }

  /**
   * The integer cube root, defined by counting up: the root of `v` is the
   * root of `v - 1`, plus one exactly when `v` is the next cube.
   */
  ghost function Icbrt(v: nat): (r: nat)
    ensures IsCbrt(v, r)
    decreases v
  {
    if v == 0 then 0
    else
      var p := Icbrt(v - 1);
      CubeStrictlyIncreasing(p + 1, p + 2);
      if Cube(p + 1) <= v then p + 1 else p
  }

  /**
   * A cube root is no larger than its input, and from two on it is
   * smaller, so its successor never exceeds the input's type.
   */
  lemma CbrtAtMostInput(v: int, r: int)
    requires IsCbrt(v, r)
    ensures r <= v
    ensures v >= 2 ==> r < v
  {
    if r >= 2 {
      assert r * r >= 4;
      assert r * r * r >= 4 * r;
    } else if r == 1 {
      assert Cube(r) == 1;
    }
  }

  /** At most one number is the cube root of `v`. */
  lemma CbrtUnique(v: int, r1: int, r2: int)
    requires IsCbrt(v, r1) && IsCbrt(v, r2)
    ensures r1 == r2
  {
    if r1 < r2 {
      if r1 + 1 < r2 {
        CubeStrictlyIncreasing(r1 + 1, r2);
      }
    } else if r2 < r1 {
      if r2 + 1 < r1 {
        CubeStrictlyIncreasing(r2 + 1, r1);
      }
    }
  }

  /** `Icbrt` is exactly the function the predicate `IsCbrt` describes. */
  lemma IcbrtCharacterised(v: nat, r: int)
    ensures IsCbrt(v, r) <==> Icbrt(v) == r
  {
    if IsCbrt(v, r) {
      CbrtUnique(v, r, Icbrt(v));
    }
  }

  /** A larger input never has a smaller cube root. */
  lemma IcbrtMonotone(a: nat, b: nat)
    requires a <= b
    ensures Icbrt(a) <= Icbrt(b)
  {
    var ra, rb := Icbrt(a), Icbrt(b);
    assert Cube(ra) <= a <= b < Cube(rb + 1);
    CubeOrderReflected(ra, rb + 1);
  }

  /**
   * The cubes of the doubled root `2 r` and of its successor, when `r` is
   * the root of `u / 8`: both are ordered, the first is at most `u`, and
   * they differ by `3 (2 r) (2 r + 1) + 1`.
   */
  lemma DoubledCubes(u: nat, r: int)
    requires IsCbrt(u / 8, r)
    ensures 0 <= Cube(2 * r) < Cube(2 * r + 1) && Cube(2 * r) <= u
    ensures Cube(2 * r + 1) - Cube(2 * r) == 3 * (2 * r) * (2 * r + 1) + 1
  {
    CubeDouble(r);
    CubeDifference(2 * r);
    CubeStrictlyIncreasing(2 * r, 2 * r + 1);
    if r > 0 {
      CubeStrictlyIncreasing(0, 2 * r);
    }
  }

  /**
   * One base-8 digit: when `r` is the root of `u / 8`, the root of `u` is
   * `2 r + 1` if that cube fits under `u`, and `2 r` otherwise.
   */
  lemma DigitStep(u: nat, r: int)
    requires IsCbrt(u / 8, r)
    ensures Cube(2 * r + 1) <= u ==> IsCbrt(u, 2 * r + 1)
    ensures u < Cube(2 * r + 1) ==> IsCbrt(u, 2 * r)
  {
    CubeDouble(r);
    CubeDouble(r + 1);
    assert 2 * (r + 1) == 2 * r + 2;
    assert Cube(2 * r) <= u < Cube(2 * r + 2);
  }
}

/**
 * The `IntegerCubeRoot` trait and its blanket implementation for every
 * primitive integer type: a sign check followed by the digit-by-digit,
 * base-8 cube root, carried out in the input's own width.
 */
module IntegerCubeRoot {

  import opened Wrappers
  import opened PrimInt
  import opened CubeRootSpec

  /**
   * The shift amounts of `(0..n).step_by(3).rev()`: the multiples of three
   * below `n`, largest first.
   */
  function DescendingShifts(n: nat): seq<nat> {
    seq((n + 2) / 3, i requires 0 <= i < (n + 2) / 3 => 3 * ((n + 2) / 3 - 1 - i))
  }

  /**
   * The loop visits `ceil(n / 3)` shifts: every multiple of three below `n`,
   * each once, in descending order, from the largest one down to zero.
   */
  lemma ShiftSchedule(n: nat)
    requires n > 0
    ensures var shifts := DescendingShifts(n);
      && |shifts| == (n + 2) / 3
      && shifts[0] < n <= shifts[0] + 3
      && shifts[|shifts| - 1] == 0
      && (forall i, j :: 0 <= i < j < |shifts| ==> shifts[i] > shifts[j])
      && (forall i :: 0 <= i < |shifts| ==> shifts[i] % 3 == 0 && shifts[i] < n)
      && (forall k :: 0 <= k < n && k % 3 == 0 ==> k in shifts)
  {
    var shifts := DescendingShifts(n);
    var m := (n + 2) / 3;
    assert 3 * m <= n + 2 < 3 * m + 3 && m >= 1;
    forall i | 0 <= i < m
      ensures shifts[i] % 3 == 0 && shifts[i] < n
    {
      MultipleMod(m - 1 - i, 3);
    }
    forall k | 0 <= k < n && k % 3 == 0
      ensures k in shifts
    {
      var i := m - 1 - k / 3;
      assert shifts[i] == k;
    }
  }

  /** Shifting right by `s + 3` is shifting right by `s`, then by three. */
  lemma ShiftRightThenThree(v: nat, s: nat)
    ensures Pow2(s + 3) == 8 * Pow2(s)
    ensures v / Pow2(s + 3) == (v / Pow2(s)) / 8
  {
    Pow2PlusThree(s);
    DivDiv(v, Pow2(s), 8);
  }

  /**
   * The remainder arithmetic of one iteration, with `d = 2^s`, `c` the cube
   * of the root so far, `c0 = 8 c` and `c1` the cubes of the doubled root
   * and of its successor, and `b = c1 - c0` the threshold. Before it the
   * remainder is `x = v - c << (s + 3)`, which is `v - c0 << s`; the test
   * `(x >> s) >= b` holds exactly when `c1 <= v >> s`, and then `b << s`
   * fits under `x` and taking it away leaves `v - c1 << s`.
   */
  lemma RemainderArithmetic(v: nat, d: int, c: int, c0: int, c1: int, b: int, x: int)
    requires d > 0 && c0 == 8 * c && 0 <= c0 <= v / d
    requires b == c1 - c0 && b > 0
    requires x == v - c * (8 * d)
    ensures x == v - c0 * d && 0 <= x <= v
    ensures x / d >= b <==> c1 <= v / d
    ensures x / d >= b ==> 0 <= b * d <= x && x - b * d == v - c1 * d
  {
    assert x == v - c0 * d;
    FloorDivAtLeast(v, c0, d);
    FloorDivAtLeast(v, c1, d);
    FloorDivAtLeast(x, b, d);
    assert c1 * d == c0 * d + b * d;
    MulMonotone(0, b, d);
    MulMonotone(0, c0, d);
  }

  /**
   * The remainder after doubling the root `r` at `d = 2^s`; the test
   * `(x >> s) >= b` holds exactly when the next odd root's cube fits under
   * `v >> s`, and then taking away `b << s` leaves that cube's remainder.
   */
  lemma RemainderStepAt(v: nat, d: int, r: int, x: int)
    requires d > 0
    requires IsCbrt((v / d) / 8, r)
    requires x == v - Cube(r) * (8 * d)
    ensures x == v - Cube(2 * r) * d && 0 <= x <= v
    ensures var b := 3 * (2 * r) * (2 * r + 1) + 1;
      x / d >= b <==> Cube(2 * r + 1) <= v / d
    ensures var b := 3 * (2 * r) * (2 * r + 1) + 1;
      x / d >= b ==> 0 <= b * d <= x && x - b * d == v - Cube(2 * r + 1) * d
  {
    var b := 3 * (2 * r) * (2 * r + 1) + 1;
    var c0, c1 := Cube(2 * r), Cube(2 * r + 1);
    assert c0 == 8 * Cube(r) && 0 <= c0 <= v / d && b == c1 - c0 && b > 0 by {
      CubeDouble(r);
      DoubledCubes(v / d, r);
    }
    RemainderArithmetic(v, d, Cube(r), c0, c1, b, x);
  }

  /**
   * One iteration of the loop, on the mathematical values. Before it,
   * `result` is the cube root of `v >> (s + 3)` and the remainder `x` is
   * `v - result^3 << (s + 3)`. After `result` is doubled, the threshold
   * `b = 3 * result * (result + 1) + 1` is the gap to the next cube; the
   * test `(x >> s) >= b` holds exactly when one more unit fits, `b << s`
   * then fits under `x`, and the remainder and the root are restored for
   * `s`.
   */
  lemma RemainderStep(v: nat, s: nat, r: int, x: int)
    requires IsCbrt(v / Pow2(s + 3), r)
    requires x == v - Cube(r) * Pow2(s + 3)
    ensures x == v - Cube(2 * r) * Pow2(s) && 0 <= x <= v
    ensures var b := 3 * (2 * r) * (2 * r + 1) + 1;
      x / Pow2(s) >= b ==>
        && 0 <= b * Pow2(s) <= x && x - b * Pow2(s) == v - Cube(2 * r + 1) * Pow2(s)
        && IsCbrt(v / Pow2(s), 2 * r + 1)
    ensures var b := 3 * (2 * r) * (2 * r + 1) + 1;
      x / Pow2(s) < b ==> IsCbrt(v / Pow2(s), 2 * r)
  {
    ShiftRightThenThree(v, s);
    RemainderStepAt(v, Pow2(s), r, x);
    DigitStep(v / Pow2(s), r);
  }

  /** Above one, the next threshold is below eight times the cube. */
  lemma ThresholdBelowEightCubes(r: int)
    requires r >= 2
    ensures 3 * (2 * r) * (2 * r + 1) + 1 <= 8 * Cube(r)
  {
    assert 3 * (2 * r) * (2 * r + 1) + 1 == 12 * r * r + 6 * r + 1;
    assert r * r * r >= 2 * r * r;
    assert 2 * r * r >= 4 * r;
  }

  /**
   * Every value the loop computes from `result` stays within the type:
   * with `r` the root of `v >> (s + 3)`, `8 r^3 <= v <= MAX`, so the doubled
   * root, `three * result`, `result + one` and the threshold
   * `3 * result * (result + 1) + 1` are all at most `MAX`.
   */
  lemma ThresholdFits(max: int, v: nat, s: nat, r: int)
    requires 127 <= max && v <= max
    requires IsCbrt(v / Pow2(s + 3), r)
    ensures var r2 := 2 * r;
      && 0 <= r2 <= 3 * r2 <= 3 * r2 * (r2 + 1)
      && r2 + 1 <= 3 * r2 * (r2 + 1) + 1 <= max
  {
    var r2 := 2 * r;
    assert 8 * Cube(r) <= max by {
      var d := Pow2(s + 3);
      ShiftRightThenThree(v, s);
      FloorDivAtLeast(v, Cube(r), d);
      MulMonotone(8, d, Cube(r));
    }
    assert 3 * r2 * (r2 + 1) + 1 <= max by {
      if r >= 2 {
        ThresholdBelowEightCubes(r);
      } else {
        assert 3 * r2 * (r2 + 1) + 1 <= 19;
      }
    }
    MulMonotone(1, r2 + 1, 3 * r2);
  }

  /**
   * The loop's invariant once every shift down to `e` has been handled:
   * `result` is the cube root of `v >> e` and the remainder `x` is what is
   * left of `v` after taking away `result^3 << e`.
   */
  ghost predicate DigitsDone(v: nat, e: nat, result: int, x: int) {
    IsCbrt(v / Pow2(e), result) && x == v - Cube(result) * Pow2(e) && 0 <= x <= v
  }

  /**
   * The loop's invariant is restored for `s`: with the doubled root `r2` and
   * its threshold `b`, the root is `r2 + 1` and the remainder drops by
   * `b << s` when `(x >> s) >= b`, and both stay as they are otherwise.
   */
  lemma IterationRestores(v: nat, s: nat, r: int, x: int, r2: int, b: int)
    requires DigitsDone(v, s + 3, r, x)
    requires r2 == 2 * r && b == 3 * r2 * (r2 + 1) + 1
    ensures x / Pow2(s) >= b ==> DigitsDone(v, s, r2 + 1, x - b * Pow2(s))
    ensures x / Pow2(s) < b ==> DigitsDone(v, s, r2, x)
  {
    RemainderStep(v, s, r, x);
  }

  /**
   * One iteration in the type `t`: every operand and result of `+`, `*`
   * and `-` is a value of `t`, the shift amount is below the width, and
   * when `(x >> s) >= b` the shift `b << s` loses no bits.
   */
  lemma IterationInType(t: IntType, v: nat, s: nat, r: int, x: int, r2: int, b: int)
    requires t.bits >= 8 && v <= t.Max() && s < t.bits
    requires DigitsDone(v, s + 3, r, x)
    requires r2 == 2 * r && b == 3 * r2 * (r2 + 1) + 1
    ensures
      && t.InRange(r) && t.InRange(r2) && t.InRange(3 * r2) && t.InRange(r2 + 1)
      && t.InRange(3 * r2 * (r2 + 1)) && t.InRange(b) && t.InRange(x)
      && (x / Pow2(s) >= b ==>
            && Shl(t, b, s) == b * Pow2(s)
            && t.InRange(b * Pow2(s)) && t.InRange(x - b * Pow2(s)))
  {
    MaxBounds(t);
    ThresholdFits(t.Max(), v, s, r);
    RemainderStep(v, s, r, x);
    InRangeFromZero(t, r);
    InRangeFromZero(t, r2);
    InRangeFromZero(t, 3 * r2);
    InRangeFromZero(t, r2 + 1);
    InRangeFromZero(t, 3 * r2 * (r2 + 1));
    InRangeFromZero(t, b);
    InRangeFromZero(t, x);
    if x / Pow2(s) >= b {
      InRangeFromZero(t, b * Pow2(s));
      InRangeFromZero(t, x - b * Pow2(s));
    }
  }

  /**
   * The body of the digit-by-digit loop for the shift `s`: double `result`,
   * compute the threshold `b = 3 * result * (result + 1) + 1` and, when
   * `(x >> s) >= b`, subtract `b << s` from the remainder and add one to
   * `result`. Every operation is the type's own and none overflows; the
   * loop's invariant moves from `s + 3` down to `s`, and the new root is
   * the old one doubled, plus one when the digit's unit fits.
   */
  method NextDigit(t: IntType, ghost v: nat, s: nat, one: int, three: int, result: int, x: int)
    returns (result': int, x': int)
    requires t.bits >= 8 && v <= t.Max() && s < t.bits && one == 1 && three == 3
    requires DigitsDone(v, s + 3, result, x)
    ensures DigitsDone(v, s, result', x')
    ensures result' == 2 * result || result' == 2 * result + 1
  {
    ghost var r2 := 2 * result;
    ghost var b0 := 3 * r2 * (r2 + 1) + 1;
    IterationInType(t, v, s, result, x, r2, b0);
    IterationRestores(v, s, result, x, r2, b0);
    assert t.InRange(one) && t.InRange(three) by {
      MaxBounds(t);
    }
    result' := Add(t, result, result);
    var b := Add(t, Mul(t, Mul(t, three, result'), Add(t, result', one)), one);
    x' := x;
    if Shr(t, x', s) >= b {
      x' := Sub(t, x', Shl(t, b, s));
      result' := Add(t, result', one);
    }
  }

  /**
   * The digit-by-digit loop over the shifts of `DescendingShifts`, from the
   * most significant three bits of the type down to the least. The result
   * is the cube root for every `v` of the type that is not negative, zero
   * included.
   */
  method DigitByDigit(t: IntType, v: int) returns (result: int)
    requires t.bits >= 8 && t.InRange(v) && 0 <= v
    ensures IsCbrt(v, result) && result == Icbrt(v)
    ensures v == 0 ==> result == 0
    ensures t.InRange(result) && t.InRange(result + 1)
  {
    var one := 1;
    MaxBounds(t);
    var three := Add(t, Add(t, one, one), one);
    var numBits := t.bits;
    var shifts := DescendingShifts(numBits);
    var m := |shifts|;
    var x := v;
    result := 0;
    ghost var done := 3 * m;
    assert v / Pow2(done) == 0 by {
      Pow2Monotone(numBits, done);
      DivModUnique(v, Pow2(done), 0);
    }
    for j := 0 to m
      invariant done == 3 * (m - j)
      invariant DigitsDone(v, done, result, x)
    {
      var s := shifts[j];
      assert s + 3 == done && s < numBits;
      result, x := NextDigit(t, v, s, one, three, result, x);
      done := s;
    }
    assert IsCbrt(v, result) by {
      assert Pow2(0) == 1;
    }
    CbrtAtMostInput(v, result);
    IcbrtCharacterised(v, result);
  }

  /**
   * `integer_cbrt_checked`: `None` exactly for a negative input (which an
   * unsigned type cannot hold), zero for zero, otherwise the cube root.
   */
  method IntegerCbrtChecked(t: IntType, v: int) returns (r: Option<int>)
    requires t.Valid() && t.InRange(v)
    ensures r.None? <==> v < 0
    ensures !t.signed ==> r.Some?
    ensures r.Some? ==> IsCbrt(v, r.value) && t.InRange(r.value) && t.InRange(r.value + 1)
    ensures v >= 0 ==> r == Some(Icbrt(v))
  {
    if v < 0 {
      return None;
    } else if v == 0 {
      return Some(0);
    }
    var root := DigitByDigit(t, v);
    return Some(root);
  }

  /** How a call of `integer_cbrt` ends: with a value, or in a panic. */
  datatype Outcome = Returned(value: int) | Panicked

  /**
   * `integer_cbrt`: the checked result unwrapped, panicking exactly where
   * the checked version gives `None`, that is on a negative input.
   */
  method IntegerCbrt(t: IntType, v: int) returns (r: Outcome)
    requires t.Valid() && t.InRange(v)
    ensures r.Panicked? <==> v < 0
    ensures r.Returned? ==> IsCbrt(v, r.value) && r.value == Icbrt(v)
  {
    var checked := IntegerCbrtChecked(t, v);
    match checked
    case None => r := Panicked;
    case Some(root) => r := Returned(root);
  }

}

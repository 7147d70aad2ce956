/**
 * `format_engineering_notation` from IBIS_Parser/ibis_parser.py: scale a number by
 * powers of 1000 until its mantissa lies in [1, 1000), never going beyond tera (10^12)
 * or pico (10^-12), and pick the SI prefix of the exponent reached.
 *
 * Values are `real`, so the divisions and multiplications by 1000 are exact.
 */
module EngNotation {
  import opened Wrappers

  function Abs(x: real): real { if x < 0.0 then -x else x }

  /**
   * `m` times 10 to the power `e`, for any integer `e`. Written as repeated
   * multiplication or division by 10 so that every fact about it stays linear.
   */
  function Scaled(m: real, e: int): real
    decreases if e < 0 then -e else e
  {
    if e == 0 then m
    else if e > 0 then 10.0 * Scaled(m, e - 1)
    else Scaled(m, e + 1) / 10.0
  }

  lemma ScaledSucc(m: real, e: int)
    ensures Scaled(m, e + 1) == 10.0 * Scaled(m, e)
  {
  }

  /** Scaling by `a` and then by `b` is scaling by `a + b`. */
  lemma {:induction false} ScaledTwice(m: real, a: int, b: int)
    ensures Scaled(Scaled(m, a), b) == Scaled(m, a + b)
    decreases if b < 0 then -b else b
  {
    if b > 0 {
      ScaledTwice(m, a, b - 1);
      ScaledSucc(m, a + b - 1);
    } else if b < 0 {
      ScaledTwice(m, a, b + 1);
      ScaledSucc(m, a + b);
    }
  }

  /** Scaling keeps the sign: it commutes with `Abs`. */
  lemma {:induction false} ScaledAbs(m: real, e: int)
    ensures Abs(Scaled(m, e)) == Scaled(Abs(m), e)
    ensures Scaled(m, e) == 0.0 <==> m == 0.0
    decreases if e < 0 then -e else e
  {
    if e > 0 {
      ScaledAbs(m, e - 1);
    } else if e < 0 {
      ScaledAbs(m, e + 1);
    }
  }

  /** Scaling up by at least three places multiplies a non-negative number by at least 1000. */
  lemma {:induction false} ScaledUp(m: real, d: int)
    requires m >= 0.0 && d >= 3
    ensures Scaled(m, d) >= 1000.0 * m
    decreases d
  {
    if d == 3 {
      ScaledSucc(m, 0);
      ScaledSucc(m, 1);
      ScaledSucc(m, 2);
    } else {
      ScaledUp(m, d - 1);
      ScaledSucc(m, d - 1);
    }
  }

  /** Dividing by 1000 is scaling down three places. */
  lemma DivideByKilo(m: real)
    ensures Scaled(m / 1000.0, 3) == m
  {
    ScaledSucc(m / 1000.0, 0);
    ScaledSucc(m / 1000.0, 1);
    ScaledSucc(m / 1000.0, 2);
  }

  /** Multiplying by 1000 is scaling up three places. */
  lemma MultiplyByKilo(m: real)
    ensures Scaled(m * 1000.0, -3) == m
  {
    ScaledSucc(m * 1000.0, -1);
    ScaledSucc(m * 1000.0, -2);
    ScaledSucc(m * 1000.0, -3);
  }

  /** One step of the first loop keeps the value: m * 10^e == (m / 1000) * 10^(e + 3). */
  lemma KiloDown(m: real, e: int)
    ensures Scaled(m / 1000.0, e + 3) == Scaled(m, e)
  {
    DivideByKilo(m);
    ScaledTwice(m / 1000.0, 3, e);
  }

  /** One step of the second loop keeps the value: m * 10^e == (m * 1000) * 10^(e - 3). */
  lemma KiloUp(m: real, e: int)
    ensures Scaled(m * 1000.0, e - 3) == Scaled(m, e)
  {
    MultiplyByKilo(m);
    ScaledTwice(m * 1000.0, -3, e);
  }

  /** The exponents the prefix table has an entry for. */
  predicate IsTableExponent(e: int) {
    -12 <= e <= 12 && e % 3 == 0
  }

  /**
   * `(mantissa, exponent)` is the engineering notation of `value`: the exponent is one of
   * the table's, mantissa * 10^exponent is exactly `value`, and the mantissa lies in
   * [1, 1000) except where the exponent sits at the top or bottom of the table.
   */
  predicate IsEngNotation(value: real, mantissa: real, exponent: int) {
    && IsTableExponent(exponent)
    && Scaled(mantissa, exponent) == value
    && (Abs(mantissa) < 1000.0 || exponent == 12)
    && (Abs(mantissa) >= 1.0 || exponent == -12)
  }

  /** The entry of the `prefixes` table for `exponent`. */
  function Prefix(exponent: int): (p: string)
    requires IsTableExponent(exponent)
    ensures |p| <= 1
    ensures p == [] <==> exponent == 0
  {
    if exponent == 12 then "T"
    else if exponent == 9 then "G"
    else if exponent == 6 then "M"
    else if exponent == 3 then "k"
    else if exponent == 0 then ""
    else if exponent == -3 then "m"
    else if exponent == -6 then "u"
    else if exponent == -9 then "n"
    else "p"
  }

  /** The prefix identifies the exponent: no two table entries share a prefix. */
  lemma PrefixInjective(e1: int, e2: int)
    requires IsTableExponent(e1) && IsTableExponent(e2)
    requires Prefix(e1) == Prefix(e2)
    ensures e1 == e2
  {
    assert e1 in {-12, -9, -6, -3, 0, 3, 6, 9, 12};
    assert e2 in {-12, -9, -6, -3, 0, 3, 6, 9, 12};
  }

  /** A number has at most one engineering notation. */
  lemma EngNotationUnique(value: real, m1: real, e1: int, m2: real, e2: int)
    requires IsEngNotation(value, m1, e1) && IsEngNotation(value, m2, e2)
    ensures m1 == m2 && e1 == e2
  {
    // a lower exponent needs a mantissa 1000 times larger: at least 1000 (e2 > -12), but below 1000 (e1 < 12)
    if e1 < e2 {
      LowerExponentLargerMantissa(value, m1, e1, m2, e2);
      assert false;
    } else if e2 < e1 {
      LowerExponentLargerMantissa(value, m2, e2, m1, e1);
      assert false;
    } else {
      ScaledTwice(m1, e1, -e1);
      ScaledTwice(m2, e2, -e2);
    }
  }

  /** Writing a number with an exponent lower by three or more takes a mantissa at least 1000 times larger. */
  lemma LowerExponentLargerMantissa(value: real, m1: real, e1: int, m2: real, e2: int)
    requires Scaled(m1, e1) == value && Scaled(m2, e2) == value
    requires e1 + 3 <= e2
    ensures Abs(m1) >= 1000.0 * Abs(m2)
  {
    // bring both to the lower exponent: m1 == m2 * 10^(e2 - e1)
    ScaledTwice(m2, e2 - e1, e1);
    ScaledTwice(m1, e1, -e1);
    ScaledTwice(Scaled(m2, e2 - e1), e1, -e1);
    assert m1 == Scaled(m2, e2 - e1);
    ScaledAbs(m2, e2 - e1);
    ScaledUp(Abs(m2), e2 - e1);
  }

  /** 1000 is written 1.000 k. */
  lemma KiloExample(m: real, e: int)
    requires IsEngNotation(1000.0, m, e)
    ensures m == 1.0 && e == 3 && Prefix(e) == "k"
  {
    assert IsEngNotation(1000.0, 1.0, 3);
    EngNotationUnique(1000.0, m, e, 1.0, 3);
  }

  /** 0.000001 is written 1.000 u. */
  lemma MicroExample(m: real, e: int)
    requires IsEngNotation(0.000001, m, e)
    ensures m == 1.0 && e == -6 && Prefix(e) == "u"
  {
    assert IsEngNotation(0.000001, 1.0, -6);
    EngNotationUnique(0.000001, m, e, 1.0, -6);
  }

  /** 999 stays 999.000 with the empty prefix. */
  lemma UnitExample(m: real, e: int)
    requires IsEngNotation(999.0, m, e)
    ensures m == 999.0 && e == 0 && Prefix(e) == ""
  {
    assert IsEngNotation(999.0, 999.0, 0);
    EngNotationUnique(999.0, m, e, 999.0, 0);
  }

  /** 2e15 is beyond the table: the exponent stops at tera and the mantissa is 2000. */
  lemma ClampedAtTeraExample(m: real, e: int)
    requires IsEngNotation(2000000000000000.0, m, e)
    ensures m == 2000.0 && e == 12 && Prefix(e) == "T"
  {
    assert IsEngNotation(2000000000000000.0, 2000.0, 12);
    EngNotationUnique(2000000000000000.0, m, e, 2000.0, 12);
  }

  /** Zero never reaches [1, 1000): the exponent goes all the way down to pico. */
  lemma ZeroExample(m: real, e: int)
    requires IsEngNotation(0.0, m, e)
    ensures m == 0.0 && e == -12 && Prefix(e) == "p"
  {
    assert IsEngNotation(0.0, 0.0, -12);
    EngNotationUnique(0.0, m, e, 0.0, -12);
  }

  /** What `format_engineering_notation` computes before rendering: mantissa, exponent and prefix. */
  datatype EngValue = EngValue(mantissa: real, exponent: int, prefix: string)

  /** The two scaling loops of `format_engineering_notation`. */
  method Scale(value: real) returns (mantissa: real, exponent: int)
    ensures IsEngNotation(value, mantissa, exponent)
  {
    mantissa, exponent := value, 0;
    while Abs(mantissa) >= 1000.0 && exponent < 12
      invariant IsTableExponent(exponent) && exponent >= 0
      invariant Scaled(mantissa, exponent) == value
      decreases 12 - exponent
    {
      KiloDown(mantissa, exponent);
      mantissa, exponent := mantissa / 1000.0, exponent + 3;
    }
    while Abs(mantissa) < 1.0 && exponent > -12
      invariant IsTableExponent(exponent)
      invariant Scaled(mantissa, exponent) == value
      invariant Abs(mantissa) < 1000.0 || exponent == 12
      decreases exponent + 12
    {
      KiloUp(mantissa, exponent);
      mantissa, exponent := mantissa * 1000.0, exponent - 3;
    }
  }

  /** The number could not be read: `float(value)` raised ValueError. */
  datatype FormatError = NotANumber(text: string)

  /**
   * `format_engineering_notation(value)` up to the final `:.3f` rendering. `toFloat` stands
   * for Python's `float()`: None where it raises.
   */
  method FormatEngineeringNotation(text: string, toFloat: string -> Option<real>) returns (r: Result<EngValue, FormatError>)
    ensures r.Failure? <==> toFloat(text).None?
    ensures r.Failure? ==> r.error == NotANumber(text)
    ensures r.Success? ==> IsEngNotation(toFloat(text).value, r.value.mantissa, r.value.exponent)
                           && r.value.prefix == Prefix(r.value.exponent)
  {
    var parsed := toFloat(text);
    if parsed.None? {
      return Failure(NotANumber(text));
    }
    var mantissa, exponent := Scale(parsed.value);
    return Success(EngValue(mantissa, exponent, Prefix(exponent)));
  }
}

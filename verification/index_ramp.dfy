/** `Ascii.getAscifromGrayScaleUsingString`, the unused, arithmetic variant of
    the ramp: it divides the gray value into equal intervals and indexes a
    caller-supplied string.  The model keeps Java's `int` and `double`
    semantics where they matter: truncating, saturating double-to-int casts,
    double division by zero, a remainder that takes the dividend's sign, and
    the exceptions thrown by integer division by zero and by `charAt`.
    Strings are sequences of characters, which match Java's UTF-16 units
    only for characters of the Basic Multilingual Plane. */
module IndexRamp {
  import opened Grid

  const MinInt: int := -0x8000_0000
  const MaxInt: int := 0x7fff_ffff

  /** The exceptions the Java method can throw. */
  datatype Failure = ArithmeticException | StringIndexOutOfBounds

  datatype Result<T> = Ok(value: T) | Err(failure: Failure)

  /** Java's `(int)` cast of a finite double: truncation toward zero,
      saturating at the bounds of `int`. */
  function DoubleToInt(x: real): (n: int)
    ensures MinInt <= n <= MaxInt
    ensures 0.0 <= x ==> 0 <= n && n as real <= x && (n < MaxInt ==> x < n as real + 1.0)
    ensures x <= 0.0 ==> n <= 0 && x <= n as real && (MinInt < n ==> n as real - 1.0 < x)
  {
    var t := if x >= 0.0 then x.Floor else -((-x).Floor);
    if t > MaxInt then MaxInt else if t < MinInt then MinInt else t
  }

  /** Java's `%` on `int`: the remainder is smaller than the divisor in
      magnitude and has the sign of the dividend. */
  function JavaRem(a: int, b: int): (r: int)
    requires b > 0
    ensures -b < r < b
    ensures 0 <= a ==> 0 <= r
    ensures a <= 0 ==> r <= 0
    ensures 0 <= a < b ==> r == a
  {
    if a >= 0 then a % b else -((-a) % b)
  }

  /** JavaRem is a remainder of `a`: it differs from `a` by a multiple of
      `b`.  With the bounds and the sign above this fixes it uniquely. */
  lemma JavaRemIsRemainder(a: int, b: int)
    requires b > 0
    ensures (a - JavaRem(a, b)) % b == 0
  {
    if a >= 0 {
      DivBounds(a, b);
      AlignedProduct(a / b, b);
      assert a - JavaRem(a, b) == (a / b) * b;
    } else {
      DivBounds(-a, b);
      AlignedProduct(-((-a) / b), b);
      assert a - JavaRem(a, b) == (-((-a) / b)) * b;
    }
  }

  /** `(int) (g / (double) valueInterval)`.  A zero interval is a double
      division by zero: positive values give +Infinity, cast to MaxInt;
      negative ones -Infinity, cast to MinInt; 0.0 / 0.0 is NaN, cast to 0. */
  function ScaledGray(g: real, valueInterval: int): (q: int)
    ensures MinInt <= q <= MaxInt
    ensures 0.0 <= g && 0 <= valueInterval ==> 0 <= q
  {
    if valueInterval == 0 then
      if g > 0.0 then MaxInt else if g < 0.0 then MinInt else 0
    else
      DoubleToInt(g / valueInterval as real)
  }

  /** The index `kilop` the method passes to `charAt`, for a string of
      length `n`; it may be negative, but it always stays below n - 1. */
  function ChosenIndex(g: real, n: nat): (k: int)
    requires n >= 2
    ensures -(n - 1) < k < n - 1
  {
    JavaRem(ScaledGray(g, 255 / n - 1), n - 1)
  }

  /** `getAscifromGrayScaleUsingString(g, valuestoUse)`.  An empty string
      fails on `255 / 0`, a one-character string on `% 0`; otherwise the
      character at the chosen index is returned, unless that index is
      negative. */
  function GetAscifromGrayScaleUsingString(g: real, valuesToUse: string): (r: Result<string>)
    ensures |valuesToUse| < 2 ==> r == Err(ArithmeticException)
    ensures |valuesToUse| >= 2 ==>
      (r.Ok? <==> 0 <= ChosenIndex(g, |valuesToUse|)) &&
      (r.Err? ==> r.failure == StringIndexOutOfBounds)
    ensures r.Ok? ==> r.value == [valuesToUse[ChosenIndex(g, |valuesToUse|)]]
  {
    if |valuesToUse| == 0 then Err(ArithmeticException)
    else
      var length := |valuesToUse| - 1;
      var valueInterval := 255 / |valuesToUse| - 1;
      var q := ScaledGray(g, valueInterval);
      if length == 0 then Err(ArithmeticException)
      else
        var kilop := JavaRem(q, length);
        if kilop < 0 then Err(StringIndexOutOfBounds) else Ok([valuesToUse[kilop]])
  }

  /** The last character of the string is never returned: every successful
      result is one of the first |valuesToUse| - 1 characters. */
  lemma NeverLastCharacter(g: real, valuesToUse: string)
    requires GetAscifromGrayScaleUsingString(g, valuesToUse).Ok?
    ensures exists k :: (0 <= k <= |valuesToUse| - 2 &&
      GetAscifromGrayScaleUsingString(g, valuesToUse).value == [valuesToUse[k]])
  {
    var k := ChosenIndex(g, |valuesToUse|);
    assert 0 <= k <= |valuesToUse| - 2;
  }

  /** For a non-negative gray value and a string of 2 to 255 characters (so
      that the interval 255 / length - 1 is not negative) the call succeeds
      and picks an index in [0, length - 2]. */
  lemma UsingStringSucceeds(g: real, valuesToUse: string)
    requires 2 <= |valuesToUse| <= 255 && g >= 0.0
    ensures GetAscifromGrayScaleUsingString(g, valuesToUse).Ok?
    ensures 0 <= ChosenIndex(g, |valuesToUse|) <= |valuesToUse| - 2
  {
    assert 255 / |valuesToUse| >= 1;
  }

  /** The error paths: strings shorter than two characters divide by zero,
      and a string of 256 or more characters makes the interval -1, so a
      gray value of 1.0 selects index -1. */
  lemma UsingStringFailures(g: real, valuesToUse: string)
    ensures |valuesToUse| <= 1 ==> GetAscifromGrayScaleUsingString(g, valuesToUse) == Err(ArithmeticException)
    ensures |valuesToUse| >= 256 ==>
      GetAscifromGrayScaleUsingString(1.0, valuesToUse) == Err(StringIndexOutOfBounds)
  {
    if |valuesToUse| >= 256 {
      assert 255 / |valuesToUse| == 0;
      assert ScaledGray(1.0, -1) == -1;
    }
  }

  /** Unlike the threshold ramps this variant is not monotone: with the
      eleven glyphs of the normal ramp (interval 22, ten usable indices) a
      gray value of 219 picks "#", while the brighter 220 wraps round to " ". */
  lemma UsingStringWrapsAround()
    ensures GetAscifromGrayScaleUsingString(219.0, " .,:;o&8%#@") == Ok("#")
    ensures GetAscifromGrayScaleUsingString(220.0, " .,:;o&8%#@") == Ok(" ")
  {
    DoubleToIntExact(219.0 / 22.0, 9);
    DoubleToIntExact(220.0 / 22.0, 10);
    assert ChosenIndex(219.0, 11) == 9;
    assert ChosenIndex(220.0, 11) == 0;
  }

  /** The cast of a non-negative double in [n, n + 1) is n. */
  lemma DoubleToIntExact(x: real, n: int)
    requires 0 <= n < MaxInt && n as real <= x < n as real + 1.0
    ensures DoubleToInt(x) == n
  {
  }
}

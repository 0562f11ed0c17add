/**
 * `format_timestamp`: a number of seconds rendered as `HH:MM:SS`.
 *
 * The source computes the three fields with Python's float floor division
 * `//`, float modulo `%` (whose remainder takes the sign of the divisor) and
 * `int()` (truncation toward zero), then formats each with `02d`. Seconds are
 * modelled as exact reals, so every field below is what those operators give
 * on the mathematical value; IEEE rounding is not modelled.
 */
module Timestamp {

  import opened Wrappers
  import opened Strings

  /** Python's `x // d` for a positive divisor: the largest whole `q`
      with `q * d <= x`, rounding toward minus infinity. */
  function FloorDiv(x: real, d: real): (q: int)
    requires d > 0.0
    ensures q as real * d <= x < (q + 1) as real * d
  {
    var y := x / d;
    assert y * d == x;
    FloorScaled(y, d);
    assert y * d < (y.Floor + 1) as real * d;
    assert x < (y.Floor + 1) as real * d;
    y.Floor
  }

  /** Scaling `floor(y) <= y < floor(y) + 1` by a positive `d`. */
  lemma FloorScaled(y: real, d: real)
    requires d > 0.0
    ensures y.Floor as real * d <= y * d < (y.Floor + 1) as real * d
  {
    var f := y.Floor as real;
    PositiveProduct(y - f, d);
    PositiveProduct(f + 1.0 - y, d);
    assert (y - f) * d == y * d - f * d;
    assert (f + 1.0 - y) * d == (f + 1.0) * d - y * d;
  }

  lemma PositiveProduct(a: real, d: real)
    requires d > 0.0
    ensures a >= 0.0 ==> a * d >= 0.0
    ensures a > 0.0 ==> a * d > 0.0
  {
  }

  /** Python's `x % d` for a positive divisor: never negative, below `d`,
      and `x` minus a whole number of `d`s. */
  function FloorMod(x: real, d: real): (r: real)
    requires d > 0.0
    ensures 0.0 <= r < d
    ensures x - r == FloorDiv(x, d) as real * d
  {
    x - d * FloorDiv(x, d) as real
  }

  /** Python's `int(x)`: truncation toward zero, so the result has the sign
      of `x` and lies within one of it on the side nearer zero. */
  function Int(x: real): (n: int)
    ensures x >= 0.0 ==> 0 <= n && n as real <= x < n as real + 1.0
    ensures x < 0.0 ==> n <= 0 && n as real - 1.0 < x <= n as real
  {
    if x >= 0.0 then x.Floor else -((-x).Floor)
  }

  /** The three fields `format_timestamp` prints. */
  datatype Clock = Clock(hours: int, minutes: int, seconds: int)

  /** The fields exactly as the source computes them:
      `hours = int(s // 3600)`, `minutes = int((s % 3600) // 60)`,
      `seconds = int(s % 60)`. */
  function Decompose(x: real): Clock {
    Clock(Int(FloorDiv(x, 3600.0) as real),
          Int(FloorDiv(FloorMod(x, 3600.0), 60.0) as real),
          Int(FloorMod(x, 60.0)))
  }

  /** Whatever the sign of `s`, minutes and seconds lie in 0..59 and the
      three fields add up to the whole seconds in `s`. */
  lemma DecomposeSpec(x: real)
    ensures 0 <= Decompose(x).minutes < 60 && 0 <= Decompose(x).seconds < 60
    ensures Decompose(x).hours * 3600 + Decompose(x).minutes * 60 + Decompose(x).seconds == x.Floor
  {
    DecomposeByFloor(x);
  }

  /** Dividing by a positive whole number and flooring only looks at the
      whole part of the dividend. */
  lemma FloorDivByInt(x: real, d: int)
    requires d > 0
    ensures FloorDiv(x, d as real) == x.Floor / d
  {
    var f := x.Floor;
    var q := f / d;
    assert q * d <= f < q * d + d;
    assert (q * d) as real <= x < (q * d + d) as real;
    assert q as real * d as real <= x < (q + 1) as real * d as real;
    DivBounds(x, d as real, q);
  }

  lemma DivBounds(x: real, d: real, q: int)
    requires d > 0.0
    requires q as real * d <= x < (q + 1) as real * d
    ensures (x / d).Floor == q
  {
    var y := x / d;
    assert y * d == x;
    assert (y - q as real) * d == x - q as real * d;
    assert ((q + 1) as real - y) * d == (q + 1) as real * d - x;
    PositiveFactor(y - q as real, d);
    PositiveFactor((q + 1) as real - y, d);
  }

  lemma PositiveFactor(a: real, d: real)
    requires d > 0.0
    ensures a * d >= 0.0 ==> a >= 0.0
    ensures a * d > 0.0 ==> a > 0.0
  {
  }

  /** Taking `x % d` and flooring equals flooring and then `% d`. */
  lemma FloorModByInt(x: real, d: int)
    requires d > 0
    ensures FloorMod(x, d as real).Floor == x.Floor % d
  {
    FloorDivByInt(x, d);
    var q := x.Floor / d;
    assert FloorMod(x, d as real) == x - (d * q) as real;
    FloorMinusInt(x, d * q);
  }

  lemma FloorMinusInt(x: real, k: int)
    ensures (x - k as real).Floor == x.Floor - k
  {
  }

  lemma IntOfWhole(k: int)
    ensures Int(k as real) == k
  {
  }

  /** The fields in terms of the whole seconds `f = floor(s)`:
      `f div 3600`, `(f mod 3600) div 60` and `f mod 60`, as Euclidean
      division on integers. */
  lemma DecomposeByFloor(x: real)
    ensures Int(FloorDiv(x, 3600.0) as real) == x.Floor / 3600
    ensures Int(FloorDiv(FloorMod(x, 3600.0), 60.0) as real) == (x.Floor % 3600) / 60
    ensures Int(FloorMod(x, 60.0)) == x.Floor % 60
    ensures x.Floor / 3600 * 3600 + (x.Floor % 3600) / 60 * 60 + x.Floor % 60 == x.Floor
  {
    var f := x.Floor;
    FloorDivByInt(x, 3600);
    IntOfWhole(f / 3600);
    FloorModByInt(x, 3600);
    FloorDivByInt(FloorMod(x, 3600.0), 60);
    IntOfWhole((f % 3600) / 60);
    FloorModByInt(x, 60);
    assert Int(FloorMod(x, 60.0)) == FloorMod(x, 60.0).Floor;
    SplitHour(f);
  }

  lemma SplitHour(f: int)
    ensures f / 3600 * 3600 + (f % 3600) / 60 * 60 + f % 60 == f
  {
    var q, r := f / 3600, f % 3600;
    var m, s := r / 60, r % 60;
    assert f == q * 3600 + m * 60 + s;
    assert f == (q * 60 + m) * 60 + s;
    assert 0 <= s < 60;
    assert f % 60 == s;
  }

  /** `format_timestamp(seconds)`: `f"{h:02d}:{m:02d}:{s:02d}"`. */
  function FormatTimestamp(x: real): string {
    var c := Decompose(x);
    FormatPadded(c.hours, 2) + ":" + FormatPadded(c.minutes, 2) + ":" + FormatPadded(c.seconds, 2)
  }

  /** Reads `H..H:MM:SS` back to a number of seconds: the hours an optional
      '-' and one or more digits, minutes and seconds exactly two digits
      each and below 60. */
  function ParseTimestamp(t: string): Option<int> {
    if |t| < 7 || t[|t| - 6] != ':' || t[|t| - 3] != ':' then None
    else
      var mm, ss := t[|t| - 5..|t| - 3], t[|t| - 2..];
      if !AllDigits(mm) || !AllDigits(ss) || ParseDecimal(mm) >= 60 || ParseDecimal(ss) >= 60 then None
      else match ParseInt(t[..|t| - 6])
        case None => None
        case Some(h) => Some(h * 3600 + ParseDecimal(mm) * 60 + ParseDecimal(ss))
  }

  /** A field in 0..59 is printed as exactly two digits that read back to it. */
  lemma TwoDigitField(n: int)
    requires 0 <= n < 60
    ensures |FormatPadded(n, 2)| == 2 && AllDigits(FormatPadded(n, 2))
    ensures ParseDecimal(FormatPadded(n, 2)) == n
  {
    DecimalLength(n);
    ParseZeroPad(n, 2);
  }

  /** The shape of every timestamp: the hours, a colon, two digits of
      minutes, a colon and two digits of seconds. For a non-negative input
      the hours are digits only, exactly two of them while the hours are
      below 100, and more than two (with no leading zero) from 100 on. */
  lemma TimestampShape(x: real)
    ensures var r, c := FormatTimestamp(x), Decompose(x);
      && |r| >= 8
      && r[..|r| - 6] == FormatPadded(c.hours, 2)
      && r[|r| - 6] == ':' && r[|r| - 3] == ':'
      && AllDigits(r[|r| - 5..|r| - 3]) && ParseDecimal(r[|r| - 5..|r| - 3]) == c.minutes
      && AllDigits(r[|r| - 2..]) && ParseDecimal(r[|r| - 2..]) == c.seconds
      && (x >= 0.0 ==> AllDigits(r[..|r| - 6]) && (|r| == 8 <==> c.hours < 100))
      && (x >= 0.0 && |r| > 8 ==> r[0] != '0')
  {
    DecomposeSpec(x);
    var c := Decompose(x);
    var h, m, s := FormatPadded(c.hours, 2), FormatPadded(c.minutes, 2), FormatPadded(c.seconds, 2);
    TwoDigitField(c.minutes);
    TwoDigitField(c.seconds);
    var r := h + ":" + m + ":" + s;
    assert FormatTimestamp(x) == r;
    assert r[..|r| - 6] == h && r[|r| - 5..|r| - 3] == m && r[|r| - 2..] == s;
    if c.hours < 0 {
      assert |h| >= 2;
    } else {
      assert x >= 0.0 ==> c.hours >= 0;
      DecimalLength(c.hours);
      FormatPaddedWidth(c.hours, 2);
    }
    if x >= 0.0 {
      assert c.hours >= 0;
    }
  }

  /** A timestamp has digits, colons and at most a minus sign. */
  lemma TimestampChars(x: real)
    ensures forall i :: 0 <= i < |FormatTimestamp(x)| ==>
      IsDigit(FormatTimestamp(x)[i]) || FormatTimestamp(x)[i] == ':' || FormatTimestamp(x)[i] == '-'
  {
    var c := Decompose(x);
    FormatPaddedChars(c.hours, 2);
    FormatPaddedChars(c.minutes, 2);
    FormatPaddedChars(c.seconds, 2);
  }

  /** Parsing a rendered timestamp gives back the whole seconds of the
      input: `format_timestamp` loses only the fractional part. */
  lemma TimestampRoundTrip(x: real)
    ensures ParseTimestamp(FormatTimestamp(x)) == Some(x.Floor)
  {
    DecomposeSpec(x);
    var c := Decompose(x);
    var t := FormatTimestamp(x);
    TimestampShape(x);
    ParseFormatPadded(c.hours, 2);
    assert ParseInt(t[..|t| - 6]) == Some(c.hours);
  }

  /** Two inputs with the same whole seconds render identically. */
  lemma TimestampIgnoresFraction(x: real, y: real)
    requires x.Floor == y.Floor
    ensures FormatTimestamp(x) == FormatTimestamp(y)
  {
    DecomposeByFloor(x);
    DecomposeByFloor(y);
  }

  lemma FormatZero()
    ensures FormatTimestamp(0.0) == "00:00:00"
  {
    DecomposeByFloor(0.0);
    assert Decompose(0.0) == Clock(0, 0, 0);
  }

  lemma FormatOneHourOneMinuteOneSecond()
    ensures FormatTimestamp(3661.0) == "01:01:01"
  {
    DecomposeByFloor(3661.0);
    assert Decompose(3661.0) == Clock(1, 1, 1);
  }

  /** From 100 hours on the hours field widens to three digits. */
  lemma FormatHundredHours()
    ensures FormatTimestamp(360000.0) == "100:00:00"
  {
    DecomposeByFloor(360000.0);
    assert Decompose(360000.0) == Clock(100, 0, 0);
    assert Decimal(100) == "100";
  }

  /** Half a second before zero is hour -1 plus 59:59, and `02d` prints
      the negative hour as "-1". */
  lemma FormatNegativeHalfSecond()
    ensures FormatTimestamp(-0.5) == "-1:59:59"
  {
    DecomposeByFloor(-0.5);
    assert (-0.5).Floor == -1;
    assert Decompose(-0.5) == Clock(-1, 59, 59);
  }
}

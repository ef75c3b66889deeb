/** The branch of `format_time` for spans under a minute: one number scaled to seconds,
    milliseconds, microseconds or nanoseconds by the span's decimal exponent. */
module SubMinute {
  import opened Units
  import opened Numerals

  /** The units of the branch, by order. */
  const Scales: seq<Scale> := [Second, Milli, Micro, Nano]

  /** The factor each order multiplies the span by. */
  const Scaling: seq<real> := [1.0, 1000.0, 1000000.0, 1000000000.0]

  /** One unit per order, and order `k` scales by `10^(3k)`: each step down the units is a
      thousandth of the one before. */
  lemma ScalingPowers()
    ensures |Scales| == |Scaling| == 4
    ensures forall k :: 0 <= k < 4 ==> Scaling[k] == Pow10(3 * k)
  {
    Pow10Values();
  }

  /** `e` is the decimal exponent of `t`: Python's `math.floor(math.log10(t))` for `t > 0`. */
  ghost predicate IsExponent(t: real, e: int)
  {
    Pow10(e) <= t < Pow10(e + 1)
  }

  /** A span has one decimal exponent at most, so taking it as an input fixes nothing the span
      does not already fix. */
  lemma ExponentUnique(t: real, e1: int, e2: int)
    requires IsExponent(t, e1) && IsExponent(t, e2)
    ensures e1 == e2
  {
    if e1 < e2 {
      Pow10Monotone(e1 + 1, e2);
    } else if e2 < e1 {
      Pow10Monotone(e2 + 1, e1);
    }
  }

  /** Every positive span under a minute has a decimal exponent, so requiring one excludes no
      such span. */
  lemma ExponentExists(t: real)
    requires 0.0 < t < 60.0
    ensures exists e :: IsExponent(t, e)
  {
    var e := Pow10Below(t);
    ExponentFrom(t, e);
  }

  /** Counting up from an exponent whose power lies at or below the span reaches its exponent. */
  lemma {:induction false} ExponentFrom(t: real, e: int)
    requires 0.0 < t < 60.0 && Pow10(e) <= t
    ensures exists e' :: IsExponent(t, e')
    decreases 2 - e
  {
    Pow10Values();
    if 2 <= e {
      Pow10Monotone(2, e);
    }
    if t < Pow10(e + 1) {
      assert IsExponent(t, e);
    } else {
      ExponentFrom(t, e + 1);
    }
  }

  /** The exponent is at least `a` when the span is at least `10^a`. */
  lemma ExponentAtLeast(t: real, e: int, a: int)
    requires IsExponent(t, e) && Pow10(a) <= t
    ensures a <= e
  {
    if e < a {
      Pow10Monotone(e + 1, a);
    }
  }

  /** The exponent is below `b` when the span is below `10^b`. */
  lemma ExponentBelow(t: real, e: int, b: int)
    requires IsExponent(t, e) && t < Pow10(b)
    ensures e < b
  {
    if b <= e {
      Pow10Monotone(b, e);
    }
  }

  /** The order of the unit: minus the exponent floor-divided by three, capped at 3, and 3 for a
      span that is not positive (Dafny's `/` is Python's `//` for the positive divisor 3). */
  function Order(t: real, e: int): (k: int)
    ensures k <= 3
    ensures t <= 0.0 ==> k == 3
    ensures e < 3 ==> 0 <= k
  {
    if t > 0.0 then
      var k := -(e / 3);
      if k < 3 then k else 3
    else 3
  }

  /** Under a minute, each band of spans gets its own order: seconds from 1 s, milliseconds from
      1 ms, microseconds from 1 µs, and nanoseconds below that and for spans that are not
      positive. */
  lemma OrderBands(t: real, e: int)
    requires t < 60.0 && (t > 0.0 ==> IsExponent(t, e))
    ensures 0 <= Order(t, e) <= 3
    ensures 1.0 <= t ==> Order(t, e) == 0
    ensures 0.001 <= t < 1.0 ==> Order(t, e) == 1
    ensures 0.000001 <= t < 0.001 ==> Order(t, e) == 2
    ensures t < 0.000001 ==> Order(t, e) == 3
  {
    Pow10Values();
    if t > 0.0 {
      ExponentBelow(t, e, 2);
      if 1.0 <= t {
        ExponentAtLeast(t, e, 0);
      } else if 0.001 <= t {
        ExponentAtLeast(t, e, -3);
        ExponentBelow(t, e, 0);
      } else if 0.000001 <= t {
        ExponentAtLeast(t, e, -6);
        ExponentBelow(t, e, -3);
      } else {
        ExponentBelow(t, e, -6);
      }
    }
  }

  /** The scaled number of a positive span under a minute lands below 1000, and at 1 or above
      unless the span is below a nanosecond (before `%.3g` rounds it). */
  lemma ScaledBand(t: real, e: int)
    requires 0.0 < t < 60.0 && IsExponent(t, e)
    ensures 0 <= Order(t, e) <= 3
    ensures var v := t * Scaling[Order(t, e)];
      && 0.0 < v < 1000.0
      && (Order(t, e) < 3 ==> 1.0 <= v)
      && (t >= 0.000000001 ==> 1.0 <= v)
  {
    OrderBands(t, e);
  }

  /** The text of the branch: the scaled number as `%.3g` renders it (`sig3`), a space and the
      unit's suffix. Whatever the exponent, spans from 1 s are shown in seconds unscaled, from
      1 ms in milliseconds, from 1 µs in microseconds, and the rest, including spans that are not
      positive, in nanoseconds. */
  function SubMinuteText(units: UnitTable, t: real, e: int, sig3: real -> string): (s: string)
    requires t < 60.0 && (t > 0.0 ==> IsExponent(t, e))
    ensures 1.0 <= t ==> s == sig3(t) + " " + units.sec
    ensures 0.001 <= t < 1.0 ==> s == sig3(t * 1000.0) + " " + units.ms
    ensures 0.000001 <= t < 0.001 ==> s == sig3(t * 1000000.0) + " " + units.micro
    ensures t < 0.000001 ==> s == sig3(t * 1000000000.0) + " " + units.nano
  {
    OrderBands(t, e);
    var order := Order(t, e);
    sig3(t * Scaling[order]) + " " + Suffix(units, Scales[order])
  }
}

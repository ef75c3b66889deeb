/** Exact stand-ins for the numeric primitives the formatter uses. */
module Numerals {

  /** 10 raised to an integer power, exactly. */
  function Pow10(e: int): (r: real)
    ensures r > 0.0
    decreases if e < 0 then -e else e
  {
    if e == 0 then 1.0
    else if e > 0 then 10.0 * Pow10(e - 1)
    else Pow10(e + 1) / 10.0
  }

  /** The powers the formatter's bands are drawn at. */
  lemma Pow10Values()
    ensures Pow10(-9) == 0.000000001 && Pow10(-6) == 0.000001 && Pow10(-3) == 0.001
    ensures Pow10(0) == 1.0 && Pow10(2) == 100.0
    ensures Pow10(3) == 1000.0 && Pow10(6) == 1000000.0 && Pow10(9) == 1000000000.0
  {
  }

  lemma Pow10Step(e: int)
    ensures Pow10(e + 1) == 10.0 * Pow10(e)
  {
  }

  /** Powers of ten grow strictly with the exponent. */
  lemma {:induction false} Pow10Increasing(a: int, b: int)
    requires a < b
    ensures Pow10(a) < Pow10(b)
    decreases b - a
  {
    Pow10Step(a);
    if a + 1 < b {
      Pow10Increasing(a + 1, b);
    }
  }

  /** Powers of ten do not shrink as the exponent grows. */
  lemma Pow10Monotone(a: int, b: int)
    requires a <= b
    ensures Pow10(a) <= Pow10(b)
  {
    if a < b {
      Pow10Increasing(a, b);
    }
  }

  /** Negative powers undo positive ones. */
  lemma {:induction false} Pow10Inverse(k: nat)
    ensures Pow10(-(k as int)) * Pow10(k) == 1.0
  {
    if k > 0 {
      Pow10Inverse(k - 1);
      var a, b := Pow10(-((k - 1) as int)), Pow10(k - 1);
      assert Pow10(-(k as int)) == a / 10.0;
      assert Pow10(k) == 10.0 * b;
      assert (a / 10.0) * (10.0 * b) == a * b;
    }
  }

  /** `10^k` is at least `k + 1`. */
  lemma {:induction false} Pow10AtLeast(k: nat)
    ensures Pow10(k) >= (k + 1) as real
  {
    if k > 0 {
      Pow10AtLeast(k - 1);
      assert Pow10(k) == 10.0 * Pow10(k - 1);
    }
  }

  /** A number above `1 / t` times `t` is above one. */
  lemma AboveReciprocal(p: real, t: real)
    requires t > 0.0 && p > 1.0 / t
    ensures p * t > 1.0
  {
    calc {
      p * t;
    > { assert (p - 1.0 / t) * t > 0.0; }
      (1.0 / t) * t;
    ==
      1.0;
    }
  }

  /** The inverse of a number whose product with `t` exceeds one is below `t`. */
  lemma InverseBelow(q: real, p: real, t: real)
    requires q > 0.0 && q * p == 1.0 && p * t > 1.0
    ensures q < t
  {
    calc {
      t;
    ==
      (q * p) * t;
    ==
      q * (p * t);
    > { assert q * (p * t - 1.0) > 0.0; assert q * (p * t - 1.0) == q * (p * t) - q; }
      q;
    }
  }

  /** Some power of ten lies at or below any positive number. */
  lemma Pow10Below(t: real) returns (e: int)
    requires t > 0.0
    ensures Pow10(e) <= t
  {
    var n: nat := (1.0 / t).Floor;
    var p, q := Pow10(n), Pow10(-(n as int));
    Pow10AtLeast(n);
    Pow10Inverse(n);
    assert p > 1.0 / t by {
      assert (n + 1) as real > 1.0 / t;
    }
    AboveReciprocal(p, t);
    InverseBelow(q, p, t);
    e := -(n as int);
  }

  /** Python's `int(x)` on a float: truncation toward zero. */
  function Trunc(x: real): (r: int)
    ensures x >= 0.0 ==> 0 <= r && r as real <= x < r as real + 1.0
    ensures x < 0.0 ==> r <= 0 && r as real - 1.0 < x <= r as real
  {
    if x >= 0.0 then x.Floor else -((-x).Floor)
  }

  /** Python's `x % m` on floats for a positive modulus: the result takes the sign of `m`. */
  function FMod(x: real, m: real): (r: real)
    requires m > 0.0
    ensures 0.0 <= r < m
  {
    FModBounds(x, m);
    x - m * (x / m).Floor as real
  }

  /** What floored `%` leaves lies between zero and the modulus. */
  lemma FModBounds(x: real, m: real)
    requires m > 0.0
    ensures 0.0 <= x - m * (x / m).Floor as real < m
  {
    var y := x / m;
    var q := y.Floor as real;
    MultiplyBounds(m, q, y);
    calc {
      x;
    ==
      m * y;
    <
      m * q + m;
    }
    calc {
      m * q;
    <=
      m * y;
    ==
      x;
    }
  }

  /** Multiplying by a positive factor keeps `q <= y < q + 1`. */
  lemma MultiplyBounds(m: real, q: real, y: real)
    requires m > 0.0 && q <= y < q + 1.0
    ensures m * q <= m * y < m * q + m
  {
    calc {
      m * q;
    <= { assert m * (y - q) >= 0.0; assert m * (y - q) == m * y - m * q; }
      m * y;
    < { assert m * (q + 1.0 - y) > 0.0; assert m * (q + 1.0 - y) == m * q + m - m * y; }
      m * q + m;
    }
  }

  /** The character of a decimal digit. */
  function DigitChar(d: nat): char
    requires d < 10
  {
    ('0' as int + d) as char
  }

  predicate IsDigit(c: char)
  {
    '0' <= c <= '9'
  }

  /** Python's `str(n)` for a non-negative integer: its decimal digits, most significant first. */
  function NatToString(n: nat): (s: string)
    ensures |s| >= 1
    ensures forall i :: 0 <= i < |s| ==> IsDigit(s[i])
    ensures n > 0 ==> s[0] != '0'
  {
    if n < 10 then [DigitChar(n)] else NatToString(n / 10) + [DigitChar(n % 10)]
  }

  /** The number a string of decimal digits denotes. */
  function DecimalValue(s: string): nat
    requires forall i :: 0 <= i < |s| ==> IsDigit(s[i])
  {
    if s == [] then 0
    else
      var d := s[|s| - 1] as int - '0' as int;
      assert IsDigit(s[|s| - 1]);
      10 * DecimalValue(s[..|s| - 1]) + d
  }

  /** Reading back the digits `str` writes gives the number again. */
  lemma {:induction false} DecimalRoundTrip(n: nat)
    ensures DecimalValue(NatToString(n)) == n
  {
    var s := NatToString(n);
    if n >= 10 {
      DecimalRoundTrip(n / 10);
      assert s[..|s| - 1] == NatToString(n / 10);
    }
  }
}

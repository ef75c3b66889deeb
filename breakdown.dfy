/** The branch of `format_time` for spans of a minute or more: a greedy walk from days down to
    seconds that emits a part for every unit with a positive whole count. */
module Breakdown {
  import opened Units
  import opened Numerals

  /** `count` whole units of `scale`, each `length` seconds long. */
  datatype Part = Part(count: nat, scale: Scale, length: nat)

  /** The units the walk visits, largest first, with their lengths in seconds. */
  const Parts: seq<(Scale, nat)> := [(Day, 60 * 60 * 24), (Hour, 60 * 60), (Minute, 60), (Second, 1)]

  /** The length of the unit at position `i` of `Parts`; nothing is left past the end. */
  function LengthAt(i: nat): nat
    requires i <= |Parts|
  {
    if i < |Parts| then Parts[i].1 else 0
  }

  /** Whole units of position `i` in `r` seconds, written with the unit's length as a literal
      so that the solver meets only division by constants. */
  function DivAt(r: nat, i: nat): nat
    requires i < |Parts|
  {
    if i == 0 then r / 86400 else if i == 1 then r / 3600 else if i == 2 then r / 60 else r
  }

  /** The seconds left once the whole units of position `i` are taken from `r`. */
  function ModAt(r: nat, i: nat): nat
    requires i < |Parts|
  {
    if i == 0 then r % 86400 else if i == 1 then r % 3600 else if i == 2 then r % 60 else 0
  }

  /** `DivAt` and `ModAt` are the quotient and remainder by the unit's length. */
  lemma DivModAt(r: nat, i: nat)
    requires i < |Parts|
    ensures LengthAt(i) > 0
    ensures DivAt(r, i) == r / LengthAt(i) && ModAt(r, i) == r % LengthAt(i)
  {
    if i == 0 {
      assert LengthAt(i) == 86400;
    } else if i == 1 {
      assert LengthAt(i) == 3600;
    } else if i == 2 {
      assert LengthAt(i) == 60;
    } else {
      assert LengthAt(i) == 1;
    }
  }

  // ---------------------------------------------------------------------------------------------
  // The specification: the parts of a whole number of seconds
  // ---------------------------------------------------------------------------------------------

  /** The parts the walk emits from position `i` on, when `r` whole seconds are still left. */
  function DecompositionFrom(r: nat, i: nat): seq<Part>
    requires i <= |Parts|
    decreases |Parts| - i
  {
    if i == |Parts| then []
    else
      var (scale, length) := Parts[i];
      var q := DivAt(r, i);
      (if q > 0 then [Part(q, scale, length)] else []) + DecompositionFrom(ModAt(r, i), i + 1)
  }

  /** The parts of a span of `n` whole seconds: well-formed, adding up to `n`, and none only
      for zero. */
  function Decomposition(n: nat): (ps: seq<Part>)
    ensures WellFormed(ps) && Total(ps) == n && (ps == [] <==> n == 0)
  {
    DecompositionFromFacts(n, 0);
    DecompositionFrom(n, 0)
  }

  /** The number of seconds a list of parts stands for. */
  function Total(ps: seq<Part>): nat
  {
    if ps == [] then 0 else ps[0].count * ps[0].length + Total(ps[1..])
  }

  /** A part as the formatter may print it: a positive count of one of the walked units, with
      hours below 24 and minutes and seconds below 60. */
  ghost predicate ValidPart(p: Part)
  {
    && p.count > 0
    && (p.scale, p.length) in Parts
    && (p.scale == Hour ==> p.count < 24)
    && (p.scale == Minute ==> p.count < 60)
    && (p.scale == Second ==> p.count < 60)
  }

  /** Valid parts, each strictly longer than the next: largest unit first, no unit twice. */
  ghost predicate WellFormed(ps: seq<Part>)
    decreases |ps|
  {
    ps == [] ||
    (ValidPart(ps[0]) && (|ps| > 1 ==> ps[0].length > ps[1].length) && WellFormed(ps[1..]))
  }

  /** No part longer than the unit at position `i` (for a well-formed list, the first one is the
      longest). */
  ghost predicate From(ps: seq<Part>, i: nat)
    requires i <= |Parts|
  {
    ps == [] || ps[0].length <= LengthAt(i)
  }

  /** The four shapes a valid part can take. */
  lemma PartShape(p: Part)
    requires ValidPart(p)
    ensures || (p.scale == Day && p.length == 86400)
            || (p.scale == Hour && p.length == 3600 && p.count < 24)
            || (p.scale == Minute && p.length == 60 && p.count < 60)
            || (p.scale == Second && p.length == 1 && p.count < 60)
  {
  }

  /** Every part of a well-formed list is valid, and lengths fall strictly along the list. */
  lemma {:induction false} WellFormedOrdered(ps: seq<Part>)
    requires WellFormed(ps)
    ensures forall k :: 0 <= k < |ps| ==> ValidPart(ps[k])
    ensures forall a, b :: 0 <= a < b < |ps| ==> ps[a].length > ps[b].length
    decreases |ps|
  {
    if ps != [] {
      var rest := ps[1..];
      WellFormedOrdered(rest);
      assert forall k :: 0 < k < |ps| ==> ps[k] == rest[k - 1];
    }
  }

  /** What sits at each position of `Parts`, spelled out. */
  lemma PositionFacts(i: nat)
    requires i < |Parts|
    ensures || (i == 0 && Parts[i] == (Day, 86400) && LengthAt(i) == 86400 && LengthAt(i + 1) == 3600)
            || (i == 1 && Parts[i] == (Hour, 3600) && LengthAt(i) == 3600 && LengthAt(i + 1) == 60)
            || (i == 2 && Parts[i] == (Minute, 60) && LengthAt(i) == 60 && LengthAt(i + 1) == 1)
            || (i == 3 && Parts[i] == (Second, 1) && LengthAt(i) == 1 && LengthAt(i + 1) == 0)
  {
  }

  // ---------------------------------------------------------------------------------------------
  // The arithmetic of one step, position by position
  // ---------------------------------------------------------------------------------------------

  /** The quotient and remainder at position `i` rebuild what was left. */
  lemma Rebuild(r: nat, i: nat)
    requires i < |Parts|
    ensures r == DivAt(r, i) * LengthAt(i) + ModAt(r, i)
  {
    PositionFacts(i);
  }

  /** The remainder at position `i` is less than its unit, and is all that was left when the
      quotient is zero. */
  lemma Remainder(r: nat, i: nat)
    requires i < |Parts|
    ensures ModAt(r, i) < LengthAt(i)
    ensures DivAt(r, i) == 0 ==> ModAt(r, i) == r
  {
    PositionFacts(i);
  }

  /** With less than the previous unit left, the quotient respects the limit of its unit. */
  lemma Limits(r: nat, i: nat)
    requires i < |Parts|
    requires i > 0 ==> r < LengthAt(i - 1)
    ensures Parts[i].0 == Hour ==> DivAt(r, i) < 24
    ensures Parts[i].0 == Minute || Parts[i].0 == Second ==> DivAt(r, i) < 60
  {
    PositionFacts(i);
  }

  // ---------------------------------------------------------------------------------------------
  // Properties of the specification
  // ---------------------------------------------------------------------------------------------

  /** Once no whole second is left, no later unit is emitted. */
  lemma {:induction false} NothingAfterZero(i: nat)
    requires i <= |Parts|
    ensures DecompositionFrom(0, i) == []
    decreases |Parts| - i
  {
    if i < |Parts| {
      NothingAfterZero(i + 1);
    }
  }

  /** The walk at position `i`: the part for that unit, if its count is positive, then the rest
      read from the remainder. */
  lemma Unfold(r: nat, i: nat)
    requires i < |Parts|
    ensures DecompositionFrom(r, i)
      == (if DivAt(r, i) > 0 then [Part(DivAt(r, i), Parts[i].0, LengthAt(i))] else [])
         + DecompositionFrom(ModAt(r, i), i + 1)
  {
  }

  /** Well-formed parts add up to nothing exactly when there are none. */
  lemma TotalPositive(ps: seq<Part>)
    requires WellFormed(ps)
    ensures Total(ps) == 0 <==> ps == []
  {
    if ps != [] {
      PartShape(ps[0]);
    }
  }

  /** If what the walk emits after position `i` adds up to the remainder there, what it emits from
      `i` on adds up to all that was left. */
  lemma TotalStep(r: nat, i: nat)
    requires i < |Parts|
    requires Total(DecompositionFrom(ModAt(r, i), i + 1)) == ModAt(r, i)
    ensures Total(DecompositionFrom(r, i)) == r
  {
    Unfold(r, i);
    Remainder(r, i);
    var rest := DecompositionFrom(ModAt(r, i), i + 1);
    if DivAt(r, i) > 0 {
      Rebuild(r, i);
      var p := Part(DivAt(r, i), Parts[i].0, LengthAt(i));
      assert ([p] + rest)[1..] == rest;
    } else {
      assert DecompositionFrom(r, i) == rest;
    }
  }

  /** If what the walk emits after position `i` is well-formed and starts below the unit at `i`,
      what it emits from `i` on is well-formed and starts no higher than that unit. */
  lemma WellFormedStep(r: nat, i: nat)
    requires i < |Parts|
    requires i > 0 ==> r < LengthAt(i - 1)
    requires WellFormed(DecompositionFrom(ModAt(r, i), i + 1))
    requires From(DecompositionFrom(ModAt(r, i), i + 1), i + 1)
    ensures WellFormed(DecompositionFrom(r, i)) && From(DecompositionFrom(r, i), i)
  {
    PositionFacts(i);
    Limits(r, i);
    Unfold(r, i);
    var rest := DecompositionFrom(ModAt(r, i), i + 1);
    if DivAt(r, i) > 0 {
      var p := Part(DivAt(r, i), Parts[i].0, LengthAt(i));
      assert ValidPart(p) by {
        assert Parts[i] == (p.scale, p.length);
      }
      assert ([p] + rest)[1..] == rest;
    } else {
      assert DecompositionFrom(r, i) == rest;
    }
  }

  /** From position `i` on, with less than the previous unit left, the walk emits well-formed
      parts no longer than the unit at `i` that add up to what was left, and nothing at all
      exactly when nothing was left. */
  lemma {:induction false} DecompositionFromFacts(r: nat, i: nat)
    requires i < |Parts|
    requires i > 0 ==> r < LengthAt(i - 1)
    ensures var ps := DecompositionFrom(r, i);
      WellFormed(ps) && From(ps, i) && Total(ps) == r && (ps == [] <==> r == 0)
    decreases |Parts| - i
  {
    Remainder(r, i);
    if i + 1 == |Parts| {
      NothingAfterZero(i + 1);
    } else {
      DecompositionFromFacts(ModAt(r, i), i + 1);
    }
    TotalStep(r, i);
    WellFormedStep(r, i);
    TotalPositive(DecompositionFrom(r, i));
  }

  /** The decomposition of `n` seconds: every part has a positive count of one of the walked
      units, hours below 24 and minutes and seconds below 60; lengths fall strictly, so the units
      come largest first and none twice; the parts add up to `n`; there are none exactly when `n`
      is zero, and from a minute on the first is a day, hour or minute part. */
  lemma DecompositionFacts(n: nat)
    ensures var ps := Decomposition(n);
      && WellFormed(ps)
      && (forall k :: 0 <= k < |ps| ==> ValidPart(ps[k]))
      && (forall a, b :: 0 <= a < b < |ps| ==> ps[a].length > ps[b].length)
      && Total(ps) == n
      && (ps == [] <==> n == 0)
      && (n >= 60 ==> ps != [] && ps[0].scale != Second)
  {
    DecompositionFromFacts(n, 0);
    var ps := Decomposition(n);
    WellFormedOrdered(ps);
    if n >= 60 {
      PartShape(ps[0]);
      if |ps| > 1 {
        PartShape(ps[1]);
      }
    }
  }

  /** Well-formed parts that all fall below one of the walked units add up to less than that
      unit: the hour, minute and second limits keep each level below the next. */
  lemma {:induction false} TotalBelow(ps: seq<Part>, length: nat)
    requires (Day, length) in Parts || (Hour, length) in Parts || (Minute, length) in Parts
             || (Second, length) in Parts
    requires WellFormed(ps) && (ps != [] ==> ps[0].length < length)
    ensures Total(ps) < length
    decreases |ps|
  {
    if ps != [] {
      var p := ps[0];
      PartShape(p);
      if |ps| > 1 {
        PartShape(ps[1]);
      }
      TotalBelow(ps[1..], p.length);
    }
  }

  /** Two well-formed lists that add up to the same number of seconds are the same list. */
  lemma {:induction false} TotalInjective(ps: seq<Part>, qs: seq<Part>)
    requires WellFormed(ps) && WellFormed(qs) && Total(ps) == Total(qs)
    ensures ps == qs
    decreases |ps|
  {
    TotalPositive(ps);
    TotalPositive(qs);
    if ps != [] && qs != [] {
      var p, q := ps[0], qs[0];
      PartShape(p);
      PartShape(q);
      if |ps| > 1 {
        PartShape(ps[1]);
      }
      if |qs| > 1 {
        PartShape(qs[1]);
      }
      TotalBelow(ps[1..], p.length);
      TotalBelow(qs[1..], q.length);
      if p.length < q.length {
        TotalBelow(ps, q.length);
      } else if q.length < p.length {
        TotalBelow(qs, p.length);
      } else {
        assert p.count == q.count;
        TotalInjective(ps[1..], qs[1..]);
        assert ps == [p] + ps[1..] && qs == [q] + qs[1..];
      }
    }
  }

  /** Any well-formed list of parts is the decomposition of the seconds it adds up to: with
      `DecompositionFacts`, the decomposition is the only well-formed reading of a span. */
  lemma DecompositionUnique(ps: seq<Part>)
    requires WellFormed(ps)
    ensures Decomposition(Total(ps)) == ps
  {
    DecompositionFacts(Total(ps));
    TotalInjective(Decomposition(Total(ps)), ps);
  }

  // ---------------------------------------------------------------------------------------------
  // The loop itself, on a real-valued span
  // ---------------------------------------------------------------------------------------------

  /** With `r` whole seconds and a fraction `f` left, Python's `int(leftover / length)` and
      `leftover % length` at position `i` take the whole units of `r` and keep the fraction. */
  lemma SplitDivMod(r: nat, f: real, i: nat)
    requires i < |Parts|
    requires 0.0 <= f < 1.0
    ensures Trunc((r as real + f) / LengthAt(i) as real) == DivAt(r, i)
    ensures FMod(r as real + f, LengthAt(i) as real) == ModAt(r, i) as real + f
  {
    var x := r as real + f;
    PositionFacts(i);
    if i == 0 {
      assert x / LengthAt(i) as real == x / 86400.0;
    } else if i == 1 {
      assert x / LengthAt(i) as real == x / 3600.0;
    } else if i == 2 {
      assert x / LengthAt(i) as real == x / 60.0;
    } else {
      assert x / LengthAt(i) as real == x;
    }
  }

  /** Concatenation regroups freely. */
  lemma AppendAssociative(a: seq<Part>, b: seq<Part>, c: seq<Part>)
    ensures (a + b) + c == a + (b + c)
  {
  }

  /** The walk over days, hours, minutes and seconds for a span of a minute or more: each unit
      with a positive whole count is emitted and taken from the leftover, and the walk stops as
      soon as less than a second is left. It emits exactly the decomposition of the span's whole
      seconds, so the parts are valid, largest unit first, add up to those seconds, and are never
      empty. */
  method Decompose(timespan: real) returns (time: seq<Part>)
    requires timespan >= 60.0
    ensures time == Decomposition(timespan.Floor)
    ensures WellFormed(time) && Total(time) == timespan.Floor
    ensures time != [] && time[0].scale != Second
  {
    ghost var n: nat := timespan.Floor;
    ghost var frac := timespan - n as real;
    ghost var rem := n;
    ghost var whole := DecompositionFrom(n, 0);
    time := [];
    var leftover := timespan;
    var i := 0;
    while i < |Parts|
      invariant 0 <= i <= |Parts|
      invariant leftover == rem as real + frac && 0.0 <= frac < 1.0
      invariant i > 0 ==> rem < LengthAt(i - 1)
      invariant time + DecompositionFrom(rem, i) == whole
    {
      var (scale, length) := Parts[i];
      SplitDivMod(rem, frac, i);
      Unfold(rem, i);
      Remainder(rem, i);
      ghost var before := time;
      var value := Trunc(leftover / length as real);
      if value > 0 {
        leftover := FMod(leftover, length as real);
        time := time + [Part(value, scale, length)];
      }
      ghost var emitted := if value > 0 then [Part(value, scale, length)] else [];
      ghost var rest := DecompositionFrom(ModAt(rem, i), i + 1);
      assert DecompositionFrom(rem, i) == emitted + rest;
      rem := ModAt(rem, i);
      assert rem < LengthAt(i);
      assert leftover == rem as real + frac;
      i := i + 1;
      assert time == before + emitted;
      AppendAssociative(before, emitted, rest);
      assert time + DecompositionFrom(rem, i) == whole;
      if leftover < 1.0 {
        assert rem == 0;
        NothingAfterZero(i);
        assert time == time + DecompositionFrom(rem, i);
        break;
      }
    }
    assert time == whole by {
      NothingAfterZero(|Parts|);
      if i == |Parts| {
        assert time == time + DecompositionFrom(rem, i);
      }
    }
    DecompositionFacts(n);
  }
}

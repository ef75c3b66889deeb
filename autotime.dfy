/** `format_time`: the duration text the extension shows after a cell runs. */
module AutoTime {
  import opened Units
  import opened Numerals
  import opened Breakdown
  import opened Rendering
  import opened SubMinute

  /** The text for `timespan` seconds under the suffix table `units`. From a minute on it names
      the days, hours, minutes and seconds of the span's whole seconds, and reads back as parts
      that add up to exactly those seconds; under a minute it is one number, scaled by the band
      the span falls in. `e` stands for the span's decimal exponent and `sig3` for `%.3g`. */
  method FormatTime(units: UnitTable, timespan: real, e: int, sig3: real -> string)
    returns (s: string)
    requires 0.0 < timespan < 60.0 ==> IsExponent(timespan, e)
    ensures timespan >= 60.0 ==> s == Render(units, Decomposition(timespan.Floor)) && s != []
    ensures timespan >= 60.0 && Readable(units) ==>
      && Parse(units, s).Some?
      && WellFormed(Parse(units, s).value)
      && Total(Parse(units, s).value) == timespan.Floor
    ensures timespan < 60.0 ==> s == SubMinuteText(units, timespan, e, sig3)
  {
    if timespan >= 60.0 {
      var time := Decompose(timespan);
      s := Render(units, time);
      if Readable(units) {
        RenderRoundTrip(units, time);
      }
    } else {
      s := SubMinuteText(units, timespan, e, sig3);
    }
  }

  /** An hour, a minute and a second. */
  lemma HourMinuteSecond()
    ensures Decomposition(3661) == [Part(1, Hour, 3600), Part(1, Minute, 60), Part(1, Second, 1)]
  {
    var ps := [Part(1, Hour, 3600), Part(1, Minute, 60), Part(1, Second, 1)];
    assert Total(ps) == 3661;
    assert WellFormed(ps);
    DecompositionUnique(ps);
  }

  /** The text of an hour, a minute and a second. */
  lemma HourMinuteSecondText()
    ensures Render(Default, [Part(1, Hour, 3600), Part(1, Minute, 60), Part(1, Second, 1)])
      == "1 h 1 min 1 s"
  {
    var ps := [Part(1, Hour, 3600), Part(1, Minute, 60), Part(1, Second, 1)];
    assert NatToString(1) == "1";
    assert PartText(Default, ps[0]) == "1 h" && PartText(Default, ps[1]) == "1 min";
    assert PartText(Default, ps[2]) == "1 s";
    assert Texts(Default, ps) == ["1 h", "1 min", "1 s"];
  }

  /** An exact hour shows no zero minutes or seconds. */
  lemma ExactHour()
    ensures Decomposition(3600) == [Part(1, Hour, 3600)]
    ensures Render(Default, Decomposition(3600)) == "1 h"
  {
  }

  /** A day and an hour. */
  lemma DayAndHour()
    ensures Render(Default, Decomposition(90000)) == "1 d 1 h"
  {
    NothingAfterZero(2);
    assert DecompositionFrom(3600, 1) == [Part(1, Hour, 3600)];
    assert NatToString(1) == "1";
    assert PartText(Default, Part(1, Day, 86400)) == "1 d";
    assert PartText(Default, Part(1, Hour, 3600)) == "1 h";
    assert Texts(Default, [Part(1, Day, 86400), Part(1, Hour, 3600)]) == ["1 d", "1 h"];
  }

  /** Half a second is shown as 500 milliseconds, whatever `%.3g` writes for 500. */
  lemma HalfSecond(sig3: real -> string)
    ensures SubMinuteText(Default, 0.5, -1, sig3) == sig3(500.0) + " ms"
  {
    Pow10Values();
  }

  /** Nothing elapsed is shown in nanoseconds; 123 microseconds and a second and a bit in their
      own units. */
  lemma SubMinuteExamples(sig3: real -> string)
    ensures SubMinuteText(Default, 0.0, 0, sig3) == sig3(0.0) + " ns"
    ensures SubMinuteText(Default, 0.000123, -4, sig3) == sig3(123.0) + " µs"
    ensures SubMinuteText(Default, 1.2345, 0, sig3) == sig3(1.2345) + " s"
  {
    Pow10Values();
    assert Pow10(-4) == 0.0001 && Pow10(1) == 10.0;
  }
}

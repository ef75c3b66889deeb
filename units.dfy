/** The unit-suffix table `UNITS` that the duration formatter reads. */
module Units {

  /** The seven time scales the table names, smallest first. */
  datatype Scale = Nano | Micro | Milli | Second | Minute | Hour | Day

  /** One display suffix per scale; the field names are the table's keys. */
  datatype UnitTable = UnitTable(
    nano: string,
    micro: string,
    ms: string,
    sec: string,
    min: string,
    hr: string,
    d: string)

  /** The table as the extension ships it. */
  const Default: UnitTable := UnitTable("ns", "µs", "ms", "s", "min", "h", "d")

  /** The suffix the table gives a scale. */
  function Suffix(units: UnitTable, s: Scale): string
  {
    match s
    case Nano => units.nano
    case Micro => units.micro
    case Milli => units.ms
    case Second => units.sec
    case Minute => units.min
    case Hour => units.hr
    case Day => units.d
  }

  /** The shipped suffixes, one per scale, no two alike: the suffix names its scale. */
  lemma DefaultSuffixes()
    ensures Suffix(Default, Nano) == "ns" && Suffix(Default, Micro) == "µs"
    ensures Suffix(Default, Milli) == "ms" && Suffix(Default, Second) == "s"
    ensures Suffix(Default, Minute) == "min" && Suffix(Default, Hour) == "h"
    ensures Suffix(Default, Day) == "d"
    ensures forall a, b :: Suffix(Default, a) == Suffix(Default, b) ==> a == b
  {
  }
}

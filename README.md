# jupyter-autotime: the duration formatter

jupyter-autotime is an IPython extension. After each cell runs, it shows how long the cell took. The text comes from `format_time(timespan)`, which reads the suffix table `UNITS`. This project models `format_time` and `UNITS` in Dafny and proves what the two branches of `format_time` promise.

- **Long branch: spans of a minute or more.** A loop walks days, hours, minutes and seconds. For each unit it takes `int(leftover / length)`. When that count is positive, it takes the unit off the leftover with `%` and appends `"<count> <suffix>"`. It stops once less than a second is left. The parts are then joined with single spaces.
  - `Breakdown.Decompose` is that loop, written as a method over an exact `real` span.
  - It is proved equal to the specification function `Breakdown.Decomposition` of the span's whole seconds.
  - The loop emits `Part(count, unit, length)` values. `Rendering.Render` turns them into the `"<count> <suffix>"` words and joins them. The suffix depends only on the unit, so looking it up at rendering time gives the same text as looking it up inside the loop.
- **Short branch: spans under a minute.** The unit's order is `min(-(floor(log10 t) // 3), 3)`, or 3 when `t <= 0`. The span is scaled by 1, 10³, 10⁶ or 10⁹ and printed with three significant digits, followed by the suffix for s, ms, µs or ns.
  - `SubMinute.SubMinuteText` models this branch.
  - The decimal exponent `floor(log10 t)` is an input `e`, constrained by `10^e <= t < 10^(e+1)`. `SubMinute.ExponentUnique` shows that at most one `e` meets this constraint, and `SubMinute.ExponentExists` shows that every span strictly between 0 and 60 s has one.
  - The `%.3g` conversion is a function input `sig3`.

Modules, one per file:

| file | module | what it holds |
|---|---|---|
| `units.dfy` | `Units` | the suffix table |
| `numerals.dfy` | `Numerals` | exact stand-ins for Python's `int()`, float `%` and `str()` on integers, and powers of ten |
| `breakdown.dfy` | `Breakdown` | the long branch's loop and its specification |
| `rendering.dfy` | `Rendering` | the text of the long branch and a reader for it |
| `subminute.dfy` | `SubMinute` | the short branch |
| `autotime.dfy` | `AutoTime` | `format_time` itself and worked examples |

## Model

| member | source | states |
|---|---|---|
| `AutoTime.FormatTime` | autotime/__init__.py:20-56 | From 60 s on, the result is the rendered decomposition of the span's whole seconds and is never empty. Under readable suffixes, it reads back as well-formed parts that add up to exactly those seconds. Under 60 s, it is the short branch's text. |
| `Breakdown.Decompose` | autotime/__init__.py:29-40 | The loop emits exactly `Decomposition(floor(timespan))`. So its parts are well-formed, they add up to `floor(timespan)`, there is at least one, and the first is not a seconds part. |
| `Breakdown.Decomposition` | autotime/__init__.py:29-40 | The specification of the walk: the parts of `n` whole seconds are well-formed, add up to `n`, and are empty only for zero. `DecompositionFacts` spells out what well-formed means for them. |
| `Breakdown.PositionFacts` | autotime/__init__.py:30-31 | The walked units `Parts`, in order: day of 86400 s, hour of 3600 s, minute of 60 s, second of 1 s. Each unit is longer than the next. |
| `Breakdown.SplitDivMod` | autotime/__init__.py:35-37 | When whole seconds `r` plus a fraction `f < 1` are left, `int(leftover / length)` is the whole count of the unit in `r`, and `leftover % length` keeps the fraction on top of the whole remainder. |
| `Breakdown.NothingAfterZero` | autotime/__init__.py:39-40 | Once no whole second is left, no later unit would be emitted, so the `break` on `leftover < 1` loses nothing. |
| `Breakdown.DecompositionFacts` | autotime/__init__.py:30-40 | Every emitted count is positive. Units come largest first and none twice. Hours are below 24 and minutes and seconds below 60. The parts add up to the span's whole seconds. They are empty only for zero, and from 60 s on the first is a day, hour or minute. |
| `Breakdown.DecompositionUnique` | autotime/__init__.py:30-40 | Any well-formed list of parts is the decomposition of the seconds it adds up to. The walk's output is therefore the only well-formed reading of a span. |
| `Breakdown.TotalInjective` | autotime/__init__.py:30-38 | Two well-formed lists of parts that add up to the same seconds are equal. |
| `Breakdown.TotalBelow` | autotime/__init__.py:33-37 | Well-formed parts that all lie below one of the walked units add up to less than that unit. |
| `Breakdown.WellFormedOrdered` | autotime/__init__.py:30-34 | In a well-formed list, every part is valid and unit lengths fall strictly along the list. |
| `Numerals.Trunc` | autotime/__init__.py:35 | `int(x)` truncates toward zero: the result lies within one of `x`, on the zero side. |
| `Numerals.FMod` | autotime/__init__.py:37 | Float `%` with a positive modulus leaves a value from 0 up to but not including the modulus. `Breakdown.SplitDivMod` shows what it keeps in the walk. |
| `Numerals.NatToString` | autotime/__init__.py:38 | `str(value)` is a non-empty run of decimal digits with no leading zero for a positive value. |
| `Numerals.DecimalRoundTrip` | autotime/__init__.py:38 | The digits `str(value)` writes read back as `value`. |
| `Numerals.Pow10Increasing` | autotime/__init__.py:53 | Powers of ten grow strictly with the exponent. This is what makes the decimal exponent of a span well defined. |
| `Numerals.Pow10Below` | autotime/__init__.py:53 | Some power of ten lies at or below any positive span. |
| `Rendering.Join` | autotime/__init__.py:41 | `' '.join` of no words is the empty text, and a join that starts with a non-empty word is non-empty. |
| `Rendering.Texts` | autotime/__init__.py:38 | There is one `"<count> <suffix>"` text per part, in the parts' order. |
| `Rendering.PartText` | autotime/__init__.py:38 | The text of one part, `'%s %s' % (str(value), suffix)`, is never empty. |
| `Rendering.PartTextSplits` | autotime/__init__.py:38 | When the suffix has no space, one part's text splits at its single space into the count's digits, which read back as the count, and the suffix. |
| `Rendering.Render` | autotime/__init__.py:38-41 | The long branch's text is empty exactly when there are no parts. |
| `Rendering.SplitJoin` | autotime/__init__.py:41 | Splitting a single-space join of words without spaces gives back the words. |
| `Rendering.RenderRoundTrip` | autotime/__init__.py:38-41 | Under suffixes that are non-empty, space-free and distinct, the text of well-formed parts parses back to exactly those parts. |
| `Rendering.DefaultReadable` | autotime/__init__.py:9-17 | The shipped suffixes `d`, `h`, `min` and `s` meet that condition. |
| `Rendering.LengthOfParts` | autotime/__init__.py:30-31 | The reader gives each unit the same length as the walk's `Parts` list does, and the same length a valid part carries. |
| `Units.DefaultSuffixes` | autotime/__init__.py:9-17 | The shipped table `Default` gives `ns`, `µs`, `ms`, `s`, `min`, `h` and `d`. Looked up with `Suffix`, no two scales share a suffix. |
| `SubMinute.ExponentUnique` | autotime/__init__.py:53 | A span has at most one decimal exponent, so taking it as an input fixes nothing the span does not. |
| `SubMinute.ExponentExists` | autotime/__init__.py:53 | Every span strictly between 0 and 60 s has a decimal exponent, so `FormatTime`'s requirement on `e` excludes no span. |
| `SubMinute.ScalingPowers` | autotime/__init__.py:43-50 | There are four units and four factors. Order `k` scales by `10^(3k)`. |
| `SubMinute.Order` | autotime/__init__.py:52-55 | The order never exceeds 3. It is 3 for a span that is not positive, and it is not negative when the exponent is below 3. `OrderBands` pins it down band by band. |
| `SubMinute.OrderBands` | autotime/__init__.py:43-55 | Under 60 s the order is in 0..3, so both list indexes are in range. It is 0 from 1 s, 1 from 1 ms, 2 from 1 µs, and 3 below 1 µs and for spans that are not positive. |
| `SubMinute.ScaledBand` | autotime/__init__.py:50-53 | For a positive span under 60 s, the scaled number is below 1000. It is at least 1 whenever the order is below 3 or the span is at least a nanosecond. |
| `SubMinute.SubMinuteText` | autotime/__init__.py:43-56 | Whatever the exponent input, the text is `%.3g` of the span followed by `s` from 1 s on, of the span times 10³ followed by `ms` from 1 ms, of the span times 10⁶ followed by `µs` from 1 µs, and of the span times 10⁹ followed by `ns` below that. A span that is not positive is shown in nanoseconds. |
| `AutoTime.HourMinuteSecond` | autotime/__init__.py:29-40 | 3661 s decomposes into 1 h, 1 min, 1 s. |
| `AutoTime.HourMinuteSecondText` | autotime/__init__.py:38-41 | Those parts render as `1 h 1 min 1 s`. |
| `AutoTime.ExactHour` | autotime/__init__.py:29-41 | 3600 s gives only `1 h`, with no zero minutes or seconds. |
| `AutoTime.DayAndHour` | autotime/__init__.py:29-41 | 90000 s renders as `1 d 1 h`. |
| `AutoTime.HalfSecond` | autotime/__init__.py:43-56 | 0.5 s is shown as 500 in `ms`. |
| `AutoTime.SubMinuteExamples` | autotime/__init__.py:43-56 | 0 s is shown in `ns`, 0.000123 s as 123 in `µs`, and 1.2345 s unscaled in `s`. |

## Left out

- The `Timer` class (autotime/__init__.py:59-121) is not part of this model. It is a background thread that polls a shared flag and pushes updates to IPython's display.
- The `load_ipython_extension` and `unload_ipython_extension` hooks (autotime/__init__.py:128-148) are not part of this model. They register and unregister kernel events.
- Floating point is not modelled. The span is an exact `real`, and `int()`, `%` and `//` are computed exactly, so rounding in `leftover / length` and `leftover % length` is not captured. NaN and infinite spans are not captured either.
- `math.log10` and `math.floor` are not evaluated. Their result is the input `e`, which must be the exact decimal exponent. Near powers of ten, a float `log10` could differ by one.
- The `%.*g` conversion with three significant digits is not modelled. It is the function input `sig3`, so the model does not state what digits appear in the short branch.
- `SubMinute.ScaledBand` bounds the scaled number before `%.3g` rounds it. The rounding can push a value just under the top of a band to `1e+03`. For example, 0.9996 s scales to 999.6 ms, which prints as `1e+03 ms`. The model passes 999.6 to `sig3` and does not state what it prints.
- Unit labels cannot be overridden. `UNITS` (autotime/__init__.py:9-17) is a literal dictionary that nothing reassigns, so the model has no operation that changes the table and no errors for bad labels.
- `Rendering.RenderRoundTrip` holds only under suffixes a reader can tell apart. A table with empty, spaced or repeated suffixes for days, hours, minutes and seconds could produce text that does not parse back uniquely. The shipped table meets the condition.

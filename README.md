# Temperature lookup table generator

A Dafny model of `generate_temperature_table.py`. This script writes `temperature_table.h`: a C header holding one
16-bit accumulated ADC reading per degree Celsius for an NTC thermistor.

The thermistor sits under a fixed resistor in a voltage divider. For each temperature 0 .. TABLE_LENGTH - 1 the
script does five things:

- computes the thermistor resistance with the B-parameter model;
- computes the divider voltage;
- scales that voltage to a single ADC reading;
- clamps the reading to the ADC range;
- multiplies it by the number of accumulated samples, rounds it and writes it.

Around the values it writes a fixed comment block, an `#include`, a `#define` of the table length, the array
declaration and the closing brace. Values go ten to a line, with a comma after every value except the last.

The model has six modules:

- `Wrappers`: the `Option` type used for results that may be absent.
- `Constants`: the script's constants, as a `Config` value with a validity predicate and the shipped defaults.
- `Conversion`: the per-temperature pipeline over `real`.
  - The exponential is a parameter `exp: real -> real`. Lemmas assume it is positive, or increasing where they need to.
  - Rounding is modelled for both Python 2 (halves away from zero) and Python 3 (halves to even).
  - The upper clamp comes in two forms: the intended one (`Clamp`) and the one as written (`ClampAsWritten`). The
    as-written form fails where the script raises `NameError`.
- `Decimal`: the decimal notation `"{}".format` gives an integer, and a digit reader for it.
- `HeaderFormat`: the text of the header as a function of the table, plus a parser for that shape.
  - Round-trip lemma: parsing the header gives back both declared sizes and every value with its separators.
  - Counting lemma: the body has exactly n - 1 commas and n / 10 newlines.
- `Generator`: the script's loop as imperative methods.
  - `GenerateHeader` and `WriteEntries` append to a string as the script writes to its file.
  - `ComputeRInfinity` computes the B-model constant before the loop.
  - `WriteTemperature` is one pass of the loop: `ConvertTemperature` runs its arithmetic and `WriteValue` does the
    writes after the value.
  - Each method is proved against a specification function (`Generated`, `Continued`, `Entry`, `RenderCell`, `Layout`).
  - The table-level properties are lemmas about those functions: range, monotonicity, when the script as written
    raises, and the header describing the table.

## Model

| member | source | states |
|---|---|---|
| Constants.Defaults | Common_Light/Source/generate_temperature_table.py:15-36 | the shipped constants are a valid configuration (all physical quantities positive); ADC_MAX times ADC_ACCUMULATE is 16368 and the table has 150 entries |
| Decimal.NatToDecimal | Common_Light/Source/generate_temperature_table.py:47 | the notation of a natural number is a non-empty run of digits with no leading zero |
| Decimal.IntToDecimal | Common_Light/Source/generate_temperature_table.py:65 | a negative integer is written as a minus sign followed by the digits of its magnitude; a non-negative one as its digits alone |
| Decimal.DecimalRoundTrip | Common_Light/Source/generate_temperature_table.py:65 | reading back the digits written for n gives n |
| Conversion.DividerVoltage | Common_Light/Source/generate_temperature_table.py:57 | definition: TOP_VOLTAGE * r / (r + TOP_RESISTANCE); its properties are stated by Conversion.DividerBounds and Conversion.DividerIncreasing |
| Conversion.ScaleToAdc | Common_Light/Source/generate_temperature_table.py:59 | definition: (v / ADC_REFERENCE_VOLTAGE) * ADC_MAX; its property is stated by Conversion.ScaleMonotone |
| Conversion.Accumulated | Common_Light/Source/generate_temperature_table.py:61-64 | definition: the clamped single reading times ADC_ACCUMULATE; its properties are stated by Conversion.ReadingInRange and Generator.OverflowEntry |
| Conversion.Reading | Common_Light/Source/generate_temperature_table.py:65 | definition: the accumulated reading, rounded; its properties are stated by Conversion.ReadingInRange and Conversion.ReadingMonotone |
| Conversion.RInfinity | Common_Light/Source/generate_temperature_table.py:52 | the B-model constant r_infinity is positive |
| Conversion.Resistance | Common_Light/Source/generate_temperature_table.py:55 | the thermistor resistance at every table temperature is positive |
| Conversion.ResistanceDecreasing | Common_Light/Source/generate_temperature_table.py:55 | with an increasing exponential, the resistance at a higher temperature is strictly lower |
| Conversion.DividerBounds | Common_Light/Source/generate_temperature_table.py:57 | the divider voltage lies strictly between 0 and TOP_VOLTAGE |
| Conversion.DividerIncreasing | Common_Light/Source/generate_temperature_table.py:57 | a larger thermistor resistance gives a strictly larger divider voltage |
| Conversion.ScaleMonotone | Common_Light/Source/generate_temperature_table.py:59 | scaling to an ADC reading keeps the order of voltages |
| Conversion.Clamp | Common_Light/Source/generate_temperature_table.py:61-62 | the intended clamp lands in [0, ADC_MAX]: a negative reading becomes 0, a reading above ADC_MAX becomes ADC_MAX, and a reading already in range is unchanged |
| Conversion.ClampAsWritten | Common_Light/Source/generate_temperature_table.py:61-62 | the clamp as written fails (NameError) exactly when the reading, after lowering negatives to 0, exceeds ADC_MAX; otherwise it agrees with the intended clamp |
| Conversion.ClampMonotone | Common_Light/Source/generate_temperature_table.py:61-62 | the intended clamp keeps the order of readings |
| Conversion.Round | Common_Light/Source/generate_temperature_table.py:65 | under both Python 2 and Python 3 rounding, the integer is within one half of the real it rounds |
| Conversion.RoundMonotone | Common_Light/Source/generate_temperature_table.py:65 | rounding keeps the order of its arguments under both rules |
| Conversion.ReadingInRange | Common_Light/Source/generate_temperature_table.py:59-65 | each written value is within one half of the clamped, accumulated reading and lies in [0, ADC_MAX * ADC_ACCUMULATE] |
| Conversion.ReadingMonotone | Common_Light/Source/generate_temperature_table.py:57-65 | a larger thermistor resistance never gives a smaller written value |
| Conversion.DefaultOverflowThreshold | Common_Light/Source/generate_temperature_table.py:57-62 | with the shipped constants, the upper clamp runs exactly when 83 r > 2470000, i.e. r above about 29.76 kOhm |
| Conversion.ColdThermistorRaises | Common_Light/Source/generate_temperature_table.py:62 | with the shipped constants, a 30 kOhm thermistor makes the clamp as written fail |
| HeaderFormat.Opening | Common_Light/Source/generate_temperature_table.py:39-50 | definition: the comment block, the include, the length #define and the array declaration up to the opening brace; its text is read back by HeaderFormat.HeaderParses |
| HeaderFormat.Punctuation | Common_Light/Source/generate_temperature_table.py:66-71 | definition: an optional comma, then a newline or a space; its round trip is HeaderFormat.CellRoundTrip |
| HeaderFormat.RenderCell | Common_Light/Source/generate_temperature_table.py:65-71 | definition: a value in decimal followed by its punctuation; its round trip is HeaderFormat.CellRoundTrip |
| HeaderFormat.Layout | Common_Light/Source/generate_temperature_table.py:53-71 | definition: value i with a comma unless i is the last index and a newline when i is 9 mod 10; its separators are counted by HeaderFormat.BodySeparators |
| HeaderFormat.Render | Common_Light/Source/generate_temperature_table.py:53-71 | definition: the elements' texts in order; its round trip is HeaderFormat.RenderRoundTrip |
| HeaderFormat.HeaderText | Common_Light/Source/generate_temperature_table.py:39-74 | definition: opening, elements and closing brace; its round trip is HeaderFormat.HeaderRoundTrip |
| HeaderFormat.NatPrefixRoundTrip | Common_Light/Source/generate_temperature_table.py:47 | a written table length followed by a non-digit is read back whole, consuming exactly its digits |
| HeaderFormat.IntPrefixRoundTrip | Common_Light/Source/generate_temperature_table.py:65 | a written value, negative or not, followed by a non-digit is read back whole |
| HeaderFormat.CellRoundTrip | Common_Light/Source/generate_temperature_table.py:65-71 | one value with its optional comma and its space or newline is read back, consuming exactly its own characters |
| HeaderFormat.RenderRoundTrip | Common_Light/Source/generate_temperature_table.py:53-71 | the text of any sequence of elements parses back to the same elements |
| HeaderFormat.HeaderParses | Common_Light/Source/generate_temperature_table.py:39-74 | the whole header for a table parses to its length constant, its array size and the layout of its values |
| HeaderFormat.HeaderRoundTrip | Common_Light/Source/generate_temperature_table.py:39-74 | parsing the header recovers both sizes as the table length, every value in order, a comma after all but the last and a newline after every tenth |
| HeaderFormat.BodySeparators | Common_Light/Source/generate_temperature_table.py:66-71 | between the braces there are exactly n - 1 commas and n / 10 newlines |
| Generator.Entry | Common_Light/Source/generate_temperature_table.py:53-65 | definition: the reading for the resistance at t degrees; its properties are stated by Generator.TableInRange, Generator.TableNonIncreasing and Generator.OverflowEntry |
| Generator.Table | Common_Light/Source/generate_temperature_table.py:53-65 | definition: Entry for each temperature 0 .. TABLE_LENGTH - 1; its properties are stated by Generator.TableInRange, Generator.TableNonIncreasing and Generator.DefaultTableFitsUint16 |
| Generator.Overflows | Common_Light/Source/generate_temperature_table.py:62 | definition: the clamp as written fails at temperature t; characterised by Conversion.ClampAsWritten and Conversion.DefaultOverflowThreshold |
| Generator.Generated | Common_Light/Source/generate_temperature_table.py:38-74 | definition: the opening lines followed by Continued; implemented by Generator.GenerateHeader, described by Generator.WrittenHeaderDescribesTable and Generator.AsWrittenFailsIff |
| Generator.Continued | Common_Light/Source/generate_temperature_table.py:53-74 | definition: all elements and the closing brace, or the elements before the first overflow under the clamp as written; matched by Generator.ContinuedIs |
| Generator.FirstOverflow | Common_Light/Source/generate_temperature_table.py:53-62 | the temperature at which the script as written stops is the least one from the start point whose reading exceeds ADC_MAX, and none is reported only when no reading does |
| Generator.ComputeRInfinity | Common_Light/Source/generate_temperature_table.py:52 | the constant computed before the loop is RInfinity, and it is positive |
| Generator.ConvertTemperature | Common_Light/Source/generate_temperature_table.py:55-65 | the loop body yields no value exactly when the clamp is the one as written and the reading overflows; otherwise it yields the table entry for that temperature |
| Generator.WriteValue | Common_Light/Source/generate_temperature_table.py:65-71 | the writes after a value append its element text: the value, a comma unless it is the last, a newline after every tenth and a space otherwise |
| Generator.WriteTemperature | Common_Light/Source/generate_temperature_table.py:54-71 | one pass of the loop yields nothing exactly when the clamp as written fails at t; otherwise it extends the text of the elements before t by element t |
| Generator.WriteEntries | Common_Light/Source/generate_temperature_table.py:53-74 | the loop and closing writes either append every element and the closing brace, with no overflowing temperature under the clamp as written, or stop with NameError only under the clamp as written, at an overflowing temperature below which none overflows, having written exactly the elements before it |
| Generator.ContinuedIs | Common_Light/Source/generate_temperature_table.py:53-74 | the outcome WriteEntries promises is exactly Continued, the specification of the loop |
| Generator.GenerateHeader | Common_Light/Source/generate_temperature_table.py:38-74 | the whole run writes the header text of the table, or the text up to the NameError |
| Generator.TableInRange | Common_Light/Source/generate_temperature_table.py:53-65 | the table has TABLE_LENGTH entries, each in [0, ADC_MAX * ADC_ACCUMULATE] |
| Generator.OverflowEntry | Common_Light/Source/generate_temperature_table.py:62-65 | with the intended clamp, a temperature whose single reading exceeds ADC_MAX gets the entry ADC_MAX * ADC_ACCUMULATE |
| Generator.TableNonIncreasing | Common_Light/Source/generate_temperature_table.py:53-65 | with an increasing exponential, entries never grow along the table: a warmer entry is at most a colder one |
| Generator.DefaultTableFitsUint16 | Common_Light/Source/generate_temperature_table.py:30-49 | with the shipped constants the table has 150 entries, each fitting the declared uint16_t |
| Generator.WrittenHeaderDescribesTable | Common_Light/Source/generate_temperature_table.py:47-74 | with the intended clamp the run always finishes, and its header parses to the table length twice and to exactly the table's entries |
| Generator.AsWrittenFailsIff | Common_Light/Source/generate_temperature_table.py:62 | the script as written raises NameError exactly when some reading exceeds ADC_MAX, at the first such temperature, having written a prefix of the intended header; when it does not raise it writes the intended header |
| Generator.DefaultsNameErrorIff | Common_Light/Source/generate_temperature_table.py:62 | with the shipped constants and an increasing exponential, the script as written raises NameError exactly when the 0 degree resistance exceeds 2470000 / 83 ohm |
| Generator.DefaultsOverflowAtZero | Common_Light/Source/generate_temperature_table.py:53-62 | with the shipped constants, some entry overflows exactly when the 0 degree entry does |

## Left out

- `math.exp` is a parameter of the model. Where a proof needs it, it is assumed positive or increasing. The
  transcendental function itself is not modelled. So the model cannot decide whether the shipped thermistor triggers
  the line 62 error. Its 0 degree resistance is about 28.7 kOhm, below the proved threshold of about 29.76 kOhm.
- Conversion.Round: only the half-unit bound and monotonicity are proved. The exact tie-breaking of each rule is
  written in the function but has no contract of its own.
- Floating point: all arithmetic is over exact reals. IEEE-754 double rounding in lines 52-65 is not modelled.
- File I/O: `open`, `write` and `close` (lines 38, 75) become appends to a string. File-system errors and buffering
  are not modelled.
- The `int(...)` conversions on lines 47, 49 and 65 are identities in the model. The table length is a natural number
  and `round` already yields an integer value.
- Constants.Valid: the script does not validate its constants, and the model requires all of them to be positive.
  For NOMINAL_TEMPERATURE, ADC_REFERENCE_VOLTAGE and TOP_RESISTANCE this is needed because lines 52, 57 and 59 divide
  by them (TOP_RESISTANCE through r + TOP_RESISTANCE with r > 0). B_CONSTANT, TOP_VOLTAGE, ADC_MAX and
  ADC_ACCUMULATE are never divisors. For those, positivity is the physical setting that the range and ordering lemmas
  assume, and the model leaves out configurations the script would still run with, such as ADC_ACCUMULATE = 0,
  which writes a table of zeros.

## Findings

| source | as written | input that shows it | evidently intended | confidence | as-written member | corrected member |
|---|---|---|---|---|---|---|
| Common_Light/Source/generate_temperature_table.py:62 | the upper clamp assigns `float(ADC_MAC)`, a name defined nowhere in the script, so it raises NameError whenever it runs | the shipped constants with a thermistor resistance of 30000 ohm: the single reading is above 1023, so the script stops with NameError instead of writing 1023 times 16 (Conversion.ColdThermistorRaises, Generator.DefaultsNameErrorIff) | clamp the single reading to `ADC_MAX` | high, not executed | Conversion.ClampAsWritten | Conversion.Clamp |

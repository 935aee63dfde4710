/**
 * The generator script itself: one pass over the temperatures
 * 0 .. tableLength - 1 that converts each one and appends it to the header
 * text. The script's upper clamp names an undefined constant; the
 * ClampTarget parameter selects between that behaviour (the script raises
 * NameError) and the intended clamp to the ADC maximum.
 */
module Generator {
  import opened Wrappers
  import opened Constants
  import opened Conversion
  import opened Decimal
  import opened HeaderFormat

  /** What the upper clamp assigns: the ADC maximum, or the undefined name the script has. */
  datatype ClampTarget = AdcMax | UndefinedName

  /**
   * The finished header text, or the temperature at which the script raised
   * NameError together with the text it had written up to then.
   */
  datatype Outcome = Written(text: string) | NameError(temperature: nat, written: string)

  /** The table entry for t degrees Celsius. */
  function Entry(c: Config, exp: real -> real, rule: RoundingRule, t: nat): int
    requires c.Valid() && Positive(exp)
  {
    Reading(c, rule, Resistance(c, exp, t))
  }

  /** The single reading at t degrees Celsius exceeds the ADC maximum, so the script's upper clamp runs. */
  predicate Overflows(c: Config, exp: real -> real, t: nat)
    requires c.Valid() && Positive(exp)
  {
    ClampAsWritten(c, ScaleToAdc(c, DividerVoltage(c, Resistance(c, exp, t)))).None?
  }

  /** The lookup table: entry t for each temperature t in 0 .. tableLength - 1, in index order. */
  function Table(c: Config, exp: real -> real, rule: RoundingRule): seq<int>
    requires c.Valid() && Positive(exp)
  {
    seq(c.tableLength, t requires 0 <= t < c.tableLength => Entry(c, exp, rule, t))
  }

  /** The lowest temperature from `from` on whose reading overflows, if any. */
  function FirstOverflow(c: Config, exp: real -> real, from: nat): (r: Option<nat>)
    requires c.Valid() && Positive(exp)
    ensures r.Some? ==>
      from <= r.value < c.tableLength && Overflows(c, exp, r.value) &&
      forall t: nat :: from <= t < r.value ==> !Overflows(c, exp, t)
    ensures r.None? ==> forall t: nat :: from <= t < c.tableLength ==> !Overflows(c, exp, t)
    decreases c.tableLength - from
  {
    if from >= c.tableLength then None
    else if Overflows(c, exp, from) then Some(from)
    else FirstOverflow(c, exp, from + 1)
  }

  /** What a run of the script produces. */
  function Generated(c: Config, exp: real -> real, rule: RoundingRule, target: ClampTarget): Outcome
    requires c.Valid() && Positive(exp)
  {
    Continued(c, exp, rule, target, Opening(c.tableLength))
  }

  /**
   * What the script produces from the loop on, when `written` is the text
   * already written: the elements and the closing brace, or the elements
   * before the first temperature whose reading overflows.
   */
  function Continued(c: Config, exp: real -> real, rule: RoundingRule, target: ClampTarget, written: string): Outcome
    requires c.Valid() && Positive(exp)
  {
    var cells := Layout(Table(c, exp, rule), c.tableLength);
    var failure := if target == UndefinedName then FirstOverflow(c, exp, 0) else None;
    match failure
    case None => Written(written + Render(cells) + Closing)
    case Some(t) => NameError(t, written + Render(cells[..t]))
  }

  /**
   * The body of the script's loop up to the write: the resistance at t
   * degrees Celsius, the divider voltage, the single ADC reading, the clamp,
   * the accumulated reading, rounded. None where the script raises NameError.
   */
  method ConvertTemperature(c: Config, exp: real -> real, rule: RoundingRule, target: ClampTarget,
                            rInfinity: real, t: nat)
    returns (value: Option<int>)
    requires c.Valid() && Positive(exp) && rInfinity == RInfinity(c, exp)
    ensures value.None? <==> target == UndefinedName && Overflows(c, exp, t)
    ensures value.Some? ==> value.value == Entry(c, exp, rule, t)
  {
    var r := rInfinity * exp(c.bConstant / (t as real + CelsiusToKelvin));
    assert r == Resistance(c, exp, t);
    var v := c.topVoltage * r / (r + c.topResistance);
    assert v == DividerVoltage(c, r);
    var s := (v / c.adcReferenceVoltage) * c.adcMax as real;
    ghost var scaled := s;
    assert scaled == ScaleToAdc(c, v);
    if s < 0.0 {
      s := 0.0;
    }
    if s > c.adcMax as real {
      match target
      case AdcMax =>
        s := c.adcMax as real;
      case UndefinedName =>
        return None;
    }
    assert s == Clamp(c, scaled);
    s := s * c.adcAccumulate as real;
    assert s == Accumulated(c, r);
    value := Some(Round(rule, s));
  }

  /**
   * The writes after each value: the value in decimal, a comma unless t is
   * the last index of a table of n entries, then a newline when t is 9 mod 10
   * and a space otherwise.
   */
  method WriteValue(text: string, value: int, t: nat, n: nat) returns (written: string)
    ensures written == text + RenderCell(Cell(value, t != n - 1, t % 10 == 9))
  {
    written := text + IntToDecimal(value);
    ghost var afterValue := written;
    if t != n - 1 {
      written := written + ",";
    }
    if t % 10 == 9 {
      written := written + "\n";
    } else {
      written := written + " ";
    }
    Associate(text, IntToDecimal(value), if t != n - 1 then "," else "", if t % 10 == 9 then "\n" else " ");
  }

  /** The script: the opening lines, then the loop over the temperatures. */
  method GenerateHeader(c: Config, exp: real -> real, rule: RoundingRule, target: ClampTarget)
    returns (o: Outcome)
    requires c.Valid() && Positive(exp)
    ensures o == Generated(c, exp, rule, target)
  {
    var text := Opening(c.tableLength);
    o := WriteEntries(c, exp, rule, target, text);
    ContinuedIs(c, exp, rule, target, text, o);
  }

  /**
   * The script's loop, after `written`: for each temperature, its converted
   * reading with the separators that follow it; then the closing brace. With
   * the clamp as written it stops at the first temperature whose reading
   * overflows, having written the elements before it.
   */
  method WriteEntries(c: Config, exp: real -> real, rule: RoundingRule, target: ClampTarget, written: string)
    returns (o: Outcome)
    requires c.Valid() && Positive(exp)
    ensures o.NameError? ==>
      target == UndefinedName && o.temperature < c.tableLength && Overflows(c, exp, o.temperature) &&
      (forall k :: 0 <= k < o.temperature ==> !Overflows(c, exp, k)) &&
      o.written == written + Render(Layout(Table(c, exp, rule), c.tableLength)[..o.temperature])
    ensures o.Written? ==>
      (target == UndefinedName ==> forall k :: 0 <= k < c.tableLength ==> !Overflows(c, exp, k)) &&
      o.text == written + Render(Layout(Table(c, exp, rule), c.tableLength)) + Closing
  {
    var n := c.tableLength;
    ghost var cells := Layout(Table(c, exp, rule), n);
    var text := written;
    var rInfinity := ComputeRInfinity(c, exp);
    var t := 0;
    while t < n
      invariant 0 <= t <= n
      invariant text == written + Render(cells[..t])
      invariant target == UndefinedName ==> forall k :: 0 <= k < t ==> !Overflows(c, exp, k)
    {
      var next := WriteTemperature(c, exp, rule, target, rInfinity, written, text, t);
      if next.None? {
        o := NameError(t, text);
        return;
      }
      if target == UndefinedName {
        ClearBelowExtends(c, exp, t);
      }
      text := next.value;
      t := t + 1;
    }
    assert cells[..n] == cells;
    ghost var body := text;
    text := text + "};\n";
    text := text + "\n";
    Associate(body, "", "};\n", "\n");
    o := Written(text);
  }

  /** The B-model constant, computed once before the loop. */
  method ComputeRInfinity(c: Config, exp: real -> real) returns (r: real)
    requires c.Valid() && Positive(exp)
    ensures r == RInfinity(c, exp)
    ensures r > 0.0
  {
    r := c.nominalResistance * exp(-c.bConstant / c.nominalTemperature);
  }

  /** No overflow below t and none at t: none below t + 1. */
  lemma ClearBelowExtends(c: Config, exp: real -> real, t: nat)
    requires c.Valid() && Positive(exp)
    requires forall k :: 0 <= k < t ==> !Overflows(c, exp, k)
    requires !Overflows(c, exp, t)
    ensures forall k :: 0 <= k < t + 1 ==> !Overflows(c, exp, k)
  {
  }

  /** The outcome WriteEntries describes is the one the specification gives. */
  lemma ContinuedIs(c: Config, exp: real -> real, rule: RoundingRule, target: ClampTarget, written: string, o: Outcome)
    requires c.Valid() && Positive(exp)
    requires o.NameError? ==>
      target == UndefinedName && o.temperature < c.tableLength && Overflows(c, exp, o.temperature) &&
      (forall k :: 0 <= k < o.temperature ==> !Overflows(c, exp, k)) &&
      o.written == written + Render(Layout(Table(c, exp, rule), c.tableLength)[..o.temperature])
    requires o.Written? ==>
      (target == UndefinedName ==> forall k :: 0 <= k < c.tableLength ==> !Overflows(c, exp, k)) &&
      o.text == written + Render(Layout(Table(c, exp, rule), c.tableLength)) + Closing
    ensures o == Continued(c, exp, rule, target, written)
  {
  }

  /**
   * One pass of the script's loop: convert temperature t and write it with
   * its separators after `text`, the elements before it. None where the
   * script raises NameError instead.
   */
  method WriteTemperature(c: Config, exp: real -> real, rule: RoundingRule, target: ClampTarget,
                          rInfinity: real, written: string, text: string, t: nat)
    returns (next: Option<string>)
    requires c.Valid() && Positive(exp) && rInfinity == RInfinity(c, exp) && t < c.tableLength
    requires text == written + Render(Layout(Table(c, exp, rule), c.tableLength)[..t])
    ensures next.None? <==> target == UndefinedName && Overflows(c, exp, t)
    ensures next.Some? ==> next.value == written + Render(Layout(Table(c, exp, rule), c.tableLength)[..t + 1])
  {
    var entry := ConvertTemperature(c, exp, rule, target, rInfinity, t);
    if entry.None? {
      return None;
    }
    CellAt(c, exp, rule, t);
    AppendCell(written, Layout(Table(c, exp, rule), c.tableLength), t);
    var appended := WriteValue(text, entry.value, t, c.tableLength);
    next := Some(appended);
  }

  // ---------------------------------------------------------------------
  // What the script's output says about the table

  /** The table has one entry per temperature, each within the accumulated ADC range. */
  lemma TableInRange(c: Config, exp: real -> real, rule: RoundingRule)
    requires c.Valid() && Positive(exp)
    ensures |Table(c, exp, rule)| == c.tableLength
    ensures forall t :: 0 <= t < c.tableLength ==> 0 <= Table(c, exp, rule)[t] <= c.adcMax * c.adcAccumulate
  {
    forall t | 0 <= t < c.tableLength
      ensures 0 <= Table(c, exp, rule)[t] <= c.adcMax * c.adcAccumulate
    {
      ReadingInRange(c, rule, Resistance(c, exp, t));
    }
  }

  /**
   * With a B-model thermistor (resistance falls as it warms), the readings
   * never grow along the table: a warmer index has a lower or equal entry.
   */
  lemma TableNonIncreasing(c: Config, exp: real -> real, rule: RoundingRule, i: nat, j: nat)
    requires c.Valid() && Positive(exp) && Increasing(exp)
    requires i <= j < c.tableLength
    ensures Table(c, exp, rule)[j] <= Table(c, exp, rule)[i]
  {
    if i < j {
      ResistanceDecreasing(c, exp, i, j);
    }
    ReadingMonotone(c, rule, Resistance(c, exp, j), Resistance(c, exp, i));
  }

  /**
   * With the intended clamp, a temperature whose single reading exceeds the
   * ADC maximum gets the full accumulated range, ADC_MAX * ADC_ACCUMULATE.
   */
  lemma OverflowEntry(c: Config, exp: real -> real, rule: RoundingRule, t: nat)
    requires c.Valid() && Positive(exp) && Overflows(c, exp, t)
    ensures Entry(c, exp, rule, t) == c.adcMax * c.adcAccumulate
  {
    var r := Resistance(c, exp, t);
    assert Accumulated(c, r) == (c.adcMax * c.adcAccumulate) as real;
  }

  /** With the shipped constants the table has 150 entries, each a valid uint16_t. */
  lemma DefaultTableFitsUint16(exp: real -> real, rule: RoundingRule)
    requires Positive(exp)
    ensures |Table(Defaults(), exp, rule)| == 150
    ensures forall t :: 0 <= t < 150 ==> 0 <= Table(Defaults(), exp, rule)[t] < 0x1_0000
  {
    TableInRange(Defaults(), exp, rule);
  }

  /**
   * The intended clamp always finishes the header, and the header it writes
   * parses back to a length constant, an array size and elements that are
   * exactly the table.
   */
  lemma WrittenHeaderDescribesTable(c: Config, exp: real -> real, rule: RoundingRule)
    requires c.Valid() && Positive(exp)
    ensures Generated(c, exp, rule, AdcMax).Written?
    ensures var p := ParseHeader(Generated(c, exp, rule, AdcMax).text);
      p.Some? && p.value.lengthConstant == c.tableLength && p.value.arraySize == c.tableLength &&
      |p.value.cells| == c.tableLength &&
      forall t :: 0 <= t < c.tableLength ==> p.value.cells[t].value == Entry(c, exp, rule, t)
  {
    var tbl := Table(c, exp, rule);
    assert Generated(c, exp, rule, AdcMax) == Written(HeaderText(tbl));
    HeaderRoundTrip(tbl);
  }

  /**
   * The script as written raises NameError exactly when some temperature's
   * single reading exceeds the ADC maximum, at the first such temperature;
   * before raising it has written a prefix of the intended header, and when
   * it does not raise it writes the intended header.
   */
  lemma AsWrittenFailsIff(c: Config, exp: real -> real, rule: RoundingRule)
    requires c.Valid() && Positive(exp)
    ensures Generated(c, exp, rule, UndefinedName).NameError? <==>
      exists t :: 0 <= t < c.tableLength && Overflows(c, exp, t)
    ensures var o := Generated(c, exp, rule, UndefinedName);
      o.NameError? ==>
        o.temperature < c.tableLength && Overflows(c, exp, o.temperature) &&
        (forall t :: 0 <= t < o.temperature ==> !Overflows(c, exp, t)) &&
        o.written <= Generated(c, exp, rule, AdcMax).text
    ensures Generated(c, exp, rule, UndefinedName).Written? ==>
      Generated(c, exp, rule, UndefinedName) == Generated(c, exp, rule, AdcMax)
  {
    var failure := FirstOverflow(c, exp, 0);
    if failure.Some? {
      WrittenPrefix(Opening(c.tableLength), Layout(Table(c, exp, rule), c.tableLength), failure.value, Closing);
    }
  }

  /** The text written before the element at index t is a prefix of the finished text. */
  lemma WrittenPrefix(opening: string, cells: seq<Cell>, t: nat, closing: string)
    requires t <= |cells|
    ensures opening + Render(cells[..t]) <= opening + Render(cells) + closing
  {
    RenderSplit(cells, t);
    Prefix(opening, Render(cells[..t]), Render(cells[t..]), closing);
  }

  /** The text of the elements is the text of those before index t followed by that of the rest. */
  lemma RenderSplit(cells: seq<Cell>, t: nat)
    requires t <= |cells|
    ensures Render(cells) == Render(cells[..t]) + Render(cells[t..])
  {
    assert cells == cells[..t] + cells[t..];
    RenderAppend(cells[..t], cells[t..]);
  }

  /**
   * Proof helper, no counterpart in the script: regrouping a concatenation
   * over plain string parameters, so that the header's literals stay out of
   * the callers' proofs.
   */
  lemma Prefix(p1: string, p2: string, p3: string, p4: string)
    ensures p1 + p2 <= p1 + (p2 + p3) + p4
  {
    assert p1 + (p2 + p3) + p4 == (p1 + p2) + (p3 + p4);
  }

  /**
   * With the shipped constants and a B-model thermistor, the script as
   * written raises NameError exactly when the thermistor at 0 degrees Celsius
   * is above 2470000 / 83 ohms (about 29.76 kOhm), the coldest entry being
   * the highest reading.
   */
  lemma DefaultsNameErrorIff(exp: real -> real, rule: RoundingRule)
    requires Positive(exp) && Increasing(exp)
    ensures Generated(Defaults(), exp, rule, UndefinedName).NameError? <==>
      83.0 * Resistance(Defaults(), exp, 0) > 2470000.0
  {
    AsWrittenFailsIff(Defaults(), exp, rule);
    DefaultsOverflowAtZero(exp);
  }

  /** With the shipped constants, some entry overflows exactly when the 0 degree entry does. */
  lemma DefaultsOverflowAtZero(exp: real -> real)
    requires Positive(exp) && Increasing(exp)
    ensures (exists t :: 0 <= t < Defaults().tableLength && Overflows(Defaults(), exp, t)) <==>
      83.0 * Resistance(Defaults(), exp, 0) > 2470000.0
  {
    var c := Defaults();
    DefaultOverflowThreshold(Resistance(c, exp, 0));
    if 83.0 * Resistance(c, exp, 0) > 2470000.0 {
      assert 0 < c.tableLength && Overflows(c, exp, 0);
    }
    if t :| 0 <= t < c.tableLength && Overflows(c, exp, t) {
      DefaultOverflowThreshold(Resistance(c, exp, t));
      if t > 0 {
        ResistanceDecreasing(c, exp, 0, t);
      }
    }
  }

  /** Element t of the laid-out table: entry t, with the separators the script writes after it. */
  lemma CellAt(c: Config, exp: real -> real, rule: RoundingRule, t: nat)
    requires c.Valid() && Positive(exp) && t < c.tableLength
    ensures Layout(Table(c, exp, rule), c.tableLength)[t]
      == Cell(Entry(c, exp, rule, t), t != c.tableLength - 1, t % 10 == 9)
  {
  }

  /** Appending one more element's text extends the rendered prefix of the layout by that element. */
  lemma AppendCell(opening: string, cells: seq<Cell>, t: nat)
    requires t < |cells|
    ensures opening + Render(cells[..t]) + RenderCell(cells[t]) == opening + Render(cells[..t + 1])
  {
    assert cells[..t + 1] == cells[..t] + [cells[t]];
    RenderAppend(cells[..t], [cells[t]]);
    assert Render([cells[t]]) == RenderCell(cells[t]);
  }

  /** Proof helper, no counterpart in the script: associativity of four concatenated strings. */
  lemma Associate(p1: string, p2: string, p3: string, p4: string)
    ensures p1 + p2 + p3 + p4 == p1 + (p2 + (p3 + p4))
  {
  }
}

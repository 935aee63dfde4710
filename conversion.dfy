/**
 * The per-temperature conversion of the generator script: thermistor
 * resistance from the B-parameter model, voltage at the divider's midpoint,
 * scaling to a single ADC reading, the range clamp, accumulation over
 * several samples and rounding to an integer. The exponential function is a
 * parameter: only its positivity (and, for the ordering results, that it
 * increases) is used.
 */
module Conversion {
  import opened Wrappers
  import opened Constants

  /** Offset from degrees Celsius to kelvin. */
  const CelsiusToKelvin: real := 273.15

  ghost predicate Positive(exp: real -> real) {
    forall x :: exp(x) > 0.0
  }

  ghost predicate Increasing(exp: real -> real) {
    forall x, y :: x < y ==> exp(x) < exp(y)
  }

  /** Python 2 rounds halves away from zero, Python 3 to the even neighbour. */
  datatype RoundingRule = HalfAwayFromZero | HalfToEven

  /** The B-parameter model's resistance at infinite temperature. */
  function RInfinity(c: Config, exp: real -> real): (r: real)
    requires c.Valid() && Positive(exp)
    ensures r > 0.0
  {
    PositiveProduct(c.nominalResistance, exp(-c.bConstant / c.nominalTemperature));
    c.nominalResistance * exp(-c.bConstant / c.nominalTemperature)
  }

  /** Thermistor resistance at t degrees Celsius; always positive. */
  function Resistance(c: Config, exp: real -> real, t: nat): (r: real)
    requires c.Valid() && Positive(exp)
    ensures r > 0.0
  {
    PositiveProduct(RInfinity(c, exp), exp(c.bConstant / (t as real + CelsiusToKelvin)));
    RInfinity(c, exp) * exp(c.bConstant / (t as real + CelsiusToKelvin))
  }

  /** Voltage at the divider's midpoint with the thermistor on the bottom leg. */
  function DividerVoltage(c: Config, r: real): (v: real)
    requires c.Valid() && r > 0.0
  {
    c.topVoltage * r / (r + c.topResistance)
  }

  /** A divider voltage as a (not yet clamped) single ADC reading. */
  function ScaleToAdc(c: Config, v: real): real
    requires c.Valid()
  {
    (v / c.adcReferenceVoltage) * c.adcMax as real
  }

  /** The intended clamp of a single reading to the ADC range. */
  function Clamp(c: Config, s: real): (r: real)
    requires c.Valid()
    ensures 0.0 <= r <= c.adcMax as real
    ensures 0.0 <= s <= c.adcMax as real ==> r == s
    ensures s < 0.0 ==> r == 0.0
    ensures s > c.adcMax as real ==> r == c.adcMax as real
  {
    if s < 0.0 then 0.0 else if s > c.adcMax as real then c.adcMax as real else s
  }

  /**
   * The clamp as the script writes it: the upper branch names an undefined
   * constant, so it raises instead of clamping (None).
   */
  function ClampAsWritten(c: Config, s: real): (r: Option<real>)
    requires c.Valid()
    ensures r.None? <==> s > c.adcMax as real
    ensures r.Some? ==> r.value == Clamp(c, s)
  {
    var lowered := if s < 0.0 then 0.0 else s;
    if lowered > c.adcMax as real then None else Some(lowered)
  }

  /** Rounding to the nearest integer, ties resolved by the rule. */
  function Round(rule: RoundingRule, x: real): (n: int)
    ensures x - 0.5 <= n as real <= x + 0.5
  {
    match rule
    case HalfAwayFromZero =>
      if x >= 0.0 then (x + 0.5).Floor else -((-x + 0.5).Floor)
    case HalfToEven =>
      var f := x.Floor;
      var fraction := x - f as real;
      if fraction < 0.5 then f
      else if fraction > 0.5 then f + 1
      else if f % 2 == 0 then f else f + 1
  }

  /** The clamped reading for a thermistor resistance, summed over the accumulated samples. */
  function Accumulated(c: Config, r: real): real
    requires c.Valid() && r > 0.0
  {
    Clamp(c, ScaleToAdc(c, DividerVoltage(c, r))) * c.adcAccumulate as real
  }

  /** The table entry for a thermistor resistance: the accumulated reading, rounded. */
  function Reading(c: Config, rule: RoundingRule, r: real): int
    requires c.Valid() && r > 0.0
  {
    Round(rule, Accumulated(c, r))
  }

  // ---------------------------------------------------------------------
  // Arithmetic helpers

  lemma PositiveProduct(a: real, b: real)
    requires a > 0.0 && b > 0.0
    ensures a * b > 0.0
  {
  }

  lemma MulLess(a: real, x: real, y: real)
    requires a > 0.0 && x < y
    ensures a * x < a * y
  {
  }

  lemma MulAtMost(a: real, x: real, y: real)
    requires a >= 0.0 && x <= y
    ensures a * x <= a * y
  {
  }

  /** k / d decreases strictly as a positive divisor d grows. */
  lemma DivDecreasing(k: real, d1: real, d2: real)
    requires k > 0.0 && 0.0 < d1 < d2
    ensures k / d2 < k / d1
  {
    var q1, q2 := k / d1, k / d2;
    assert q1 * d1 == k && q2 * d2 == k;
    assert q1 > 0.0;
    MulLess(q1, d1, d2);
    if q2 >= q1 {
      MulAtMost(d2, q1, q2);
      assert false;
    }
  }

  // ---------------------------------------------------------------------
  // Properties of the conversion

  /** Colder means more resistance: the resistance falls strictly as the temperature rises. */
  lemma ResistanceDecreasing(c: Config, exp: real -> real, i: nat, j: nat)
    requires c.Valid() && Positive(exp) && Increasing(exp)
    requires i < j
    ensures Resistance(c, exp, j) < Resistance(c, exp, i)
  {
    DivDecreasing(c.bConstant, i as real + CelsiusToKelvin, j as real + CelsiusToKelvin);
    MulLess(RInfinity(c, exp),
      exp(c.bConstant / (j as real + CelsiusToKelvin)),
      exp(c.bConstant / (i as real + CelsiusToKelvin)));
    assert Resistance(c, exp, j) == RInfinity(c, exp) * exp(c.bConstant / (j as real + CelsiusToKelvin));
    assert Resistance(c, exp, i) == RInfinity(c, exp) * exp(c.bConstant / (i as real + CelsiusToKelvin));
  }

  /** The divider voltage is the supply voltage less the drop across the top resistor. */
  lemma DividerDrop(c: Config, r: real)
    requires c.Valid() && r > 0.0
    ensures DividerVoltage(c, r) == c.topVoltage - c.topVoltage * c.topResistance / (r + c.topResistance)
  {
    var d := r + c.topResistance;
    assert c.topVoltage * r == c.topVoltage * d - c.topVoltage * c.topResistance;
  }

  /** The divider voltage lies strictly between 0 and the supply voltage. */
  lemma DividerBounds(c: Config, r: real)
    requires c.Valid() && r > 0.0
    ensures 0.0 < DividerVoltage(c, r) < c.topVoltage
  {
    PositiveProduct(c.topVoltage, r);
    PositiveProduct(c.topVoltage, c.topResistance);
    DividerDrop(c, r);
  }

  /** The divider voltage increases strictly with the thermistor resistance. */
  lemma DividerIncreasing(c: Config, r1: real, r2: real)
    requires c.Valid() && 0.0 < r1 < r2
    ensures DividerVoltage(c, r1) < DividerVoltage(c, r2)
  {
    PositiveProduct(c.topVoltage, c.topResistance);
    DividerDrop(c, r1);
    DividerDrop(c, r2);
    DivDecreasing(c.topVoltage * c.topResistance, r1 + c.topResistance, r2 + c.topResistance);
  }

  /** Scaling to ADC counts keeps the order of voltages. */
  lemma ScaleMonotone(c: Config, v1: real, v2: real)
    requires c.Valid() && v1 <= v2
    ensures ScaleToAdc(c, v1) <= ScaleToAdc(c, v2)
  {
    assert v1 / c.adcReferenceVoltage <= v2 / c.adcReferenceVoltage;
    MulAtMost(c.adcMax as real, v1 / c.adcReferenceVoltage, v2 / c.adcReferenceVoltage);
  }

  /** Clamping keeps the order of readings. */
  lemma ClampMonotone(c: Config, s1: real, s2: real)
    requires c.Valid() && s1 <= s2
    ensures Clamp(c, s1) <= Clamp(c, s2)
  {
  }

  /** Rounding keeps the order of its arguments, whichever rule breaks ties. */
  lemma RoundMonotone(rule: RoundingRule, x: real, y: real)
    requires x <= y
    ensures Round(rule, x) <= Round(rule, y)
  {
  }

  /**
   * Each entry is within 0.5 of the accumulated clamped reading and lies in
   * [0, adcMax * adcAccumulate].
   */
  lemma ReadingInRange(c: Config, rule: RoundingRule, r: real)
    requires c.Valid() && r > 0.0
    ensures Accumulated(c, r) - 0.5 <= Reading(c, rule, r) as real <= Accumulated(c, r) + 0.5
    ensures 0 <= Reading(c, rule, r) <= c.adcMax * c.adcAccumulate
  {
    var s := Clamp(c, ScaleToAdc(c, DividerVoltage(c, r)));
    var a := c.adcAccumulate as real;
    MulAtMost(a, 0.0, s);
    MulAtMost(a, s, c.adcMax as real);
    assert (c.adcMax * c.adcAccumulate) as real == c.adcMax as real * a;
  }

  /** A larger resistance never gives a smaller entry. */
  lemma ReadingMonotone(c: Config, rule: RoundingRule, r1: real, r2: real)
    requires c.Valid() && 0.0 < r1 <= r2
    ensures Reading(c, rule, r1) <= Reading(c, rule, r2)
  {
    if r1 < r2 {
      DividerIncreasing(c, r1, r2);
    }
    var v1, v2 := DividerVoltage(c, r1), DividerVoltage(c, r2);
    ScaleMonotone(c, v1, v2);
    ClampMonotone(c, ScaleToAdc(c, v1), ScaleToAdc(c, v2));
    var s1, s2 := Clamp(c, ScaleToAdc(c, v1)), Clamp(c, ScaleToAdc(c, v2));
    MulAtMost(c.adcAccumulate as real, s1, s2);
    assert Accumulated(c, r1) <= Accumulated(c, r2);
    RoundMonotone(rule, Accumulated(c, r1), Accumulated(c, r2));
  }

  /**
   * With the shipped constants the undefined-name branch is taken exactly
   * when the resistance exceeds 2470000/83 ohm (about 29.76 kOhm).
   */
  lemma DefaultOverflowThreshold(r: real)
    requires r > 0.0
    ensures ClampAsWritten(Defaults(), ScaleToAdc(Defaults(), DividerVoltage(Defaults(), r))).None?
      <==> 83.0 * r > 2470000.0
  {
    var c := Defaults();
    var d := r + 10000.0;
    var v := DividerVoltage(c, r);
    assert v * d == 3.3 * r;
    assert ScaleToAdc(c, v) > 1023.0 <==> v > 2.47;
    if v > 2.47 {
      MulLess(d, 2.47, v);
    } else {
      MulAtMost(d, v, 2.47);
    }
  }

  /** A 30 kOhm thermistor reading makes the script as written raise. */
  lemma ColdThermistorRaises()
    ensures ClampAsWritten(Defaults(), ScaleToAdc(Defaults(), DividerVoltage(Defaults(), 30000.0))).None?
  {
    DefaultOverflowThreshold(30000.0);
  }
}
